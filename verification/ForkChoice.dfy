/** The fork-choice rule shared by header import and block import, as a state machine over what is
stored and which header is the head.  `HeaderChain` and `BlockChain` refine its `Step`; the theorems
about whole runs are proved here. */
module ForkChoice {
  import opened ChainTypes
  import opened Ancestry

  const DIFFICULTY: int := 0x2000

  datatype State = State(stored: set<Header>, head: Header)

  /** One import; `coin` is the random draw that settles equal total difficulties. */
  datatype Write = Write(header: Header, coin: bool)

  ghost predicate Knows(s: State, hash: Hash) {
    hash.Digest? && hash.header in s.stored
  }

  /** All ancestors of stored headers are stored. */
  ghost predicate Closed(g: Header, stored: set<Header>)
    requires forall h <- stored :: Linked(g, h)
  {
    forall h, n | h in stored && 0 <= n <= h.number :: Branch(g, h)[n] in stored
  }

  /** Every stored header reaches genesis through stored parents. */
  ghost predicate WellFormed(g: Header, s: State) {
    && g.number == 0 && g in s.stored && s.head in s.stored
    && (forall h <- s.stored :: Linked(g, h))
    && Closed(g, s.stored)
  }

  /** One step back along a branch stays within what is stored. */
  lemma AncestorStored(g: Header, s: State, h: Header, n: nat)
    requires WellFormed(g, s) && h in s.stored && n < h.number
    ensures var b := Branch(g, h);
            b[n + 1].parentHash == Digest(b[n]) && b[n].number == n && b[n] in s.stored
  {
    BranchStep(g, h, n + 1);
    BranchPrefix(g, h, n);
  }

  lemma {:induction false} ParentsGiveAncestors(g: Header, stored: set<Header>, h: Header, n: nat)
    requires forall x <- stored :: Linked(g, x) && (x == g || x.parentHash.header in stored)
    requires h in stored && n <= h.number
    ensures Branch(g, h)[n] in stored
    decreases h
  {
    if n < h.number {
      ParentsGiveAncestors(g, stored, h.parentHash.header, n);
    }
  }

  /** Storing all ancestors and storing all parents is the same. */
  lemma ClosedIffParents(g: Header, stored: set<Header>)
    requires forall h <- stored :: Linked(g, h)
    ensures Closed(g, stored) <==> forall h <- stored :: h == g || h.parentHash.header in stored
  {
    if Closed(g, stored) {
      forall h <- stored ensures h == g || h.parentHash.header in stored {
        if h != g {
          BranchStep(g, h, h.number);
          assert Branch(g, h)[h.number - 1] in stored;
        }
      }
    } else if forall h <- stored :: h == g || h.parentHash.header in stored {
      forall h, n | h in stored && 0 <= n <= h.number ensures Branch(g, h)[n] in stored {
        ParentsGiveAncestors(g, stored, h, n);
      }
    }
  }

  /** What the import functions ask of a header: a parent that is known sits one number lower. */
  ghost predicate Fits(s: State, h: Header) {
    Knows(s, h.parentHash) ==> h.number == h.parentHash.header.number + 1
  }

  /** Whether `h` replaces `head`: heavier, or as heavy and the coin says so. */
  ghost predicate Preferred(g: Header, h: Header, head: Header, coin: bool)
    requires Linked(g, h) && Linked(g, head)
  {
    || TotalDifficulty(g, h) > TotalDifficulty(g, head)
    || (TotalDifficulty(g, h) == TotalDifficulty(g, head) && coin)
  }

  /** Every stored header descends from genesis, and the head is stored. */
  ghost predicate Rooted(g: Header, s: State) {
    s.head in s.stored && forall h <- s.stored :: Linked(g, h)
  }

  ghost function Step(g: Header, s: State, w: Write): State
    requires Rooted(g, s) && Fits(s, w.header)
  {
    if !Knows(s, w.header.parentHash) then s
    else State(s.stored + {w.header}, if Preferred(g, w.header, s.head, w.coin) then w.header else s.head)
  }

  lemma StepWellFormed(g: Header, s: State, w: Write)
    requires WellFormed(g, s) && Fits(s, w.header)
    ensures WellFormed(g, Step(g, s, w))
  {
    if Knows(s, w.header.parentHash) {
      var p := w.header.parentHash.header;
      assert Branch(g, w.header) == Branch(g, p) + [w.header];
    }
  }

  /** The run `ws` may be made from `s`: each header fits when its turn comes. */
  ghost predicate Legal(g: Header, s: State, ws: seq<Write>)
    requires WellFormed(g, s)
    decreases |ws|
  {
    ws == [] || (Fits(s, ws[0].header) && (StepWellFormed(g, s, ws[0]); Legal(g, Step(g, s, ws[0]), ws[1..])))
  }

  ghost function Run(g: Header, s: State, ws: seq<Write>): (r: State)
    requires WellFormed(g, s) && Legal(g, s, ws)
    ensures WellFormed(g, r)
    decreases |ws|
  {
    if ws == [] then s else StepWellFormed(g, s, ws[0]); Run(g, Step(g, s, ws[0]), ws[1..])
  }

  /** A run may be prolonged by one import. */
  lemma {:induction false} RunAppend(g: Header, s: State, ws: seq<Write>, w: Write)
    requires WellFormed(g, s) && Legal(g, s, ws) && Fits(Run(g, s, ws), w.header)
    ensures Legal(g, s, ws + [w]) && Run(g, s, ws + [w]) == Step(g, Run(g, s, ws), w)
    decreases |ws|
  {
    if ws == [] {
      StepWellFormed(g, s, w);
      assert [w][1..] == [];
    } else {
      StepWellFormed(g, s, ws[0]);
      RunAppend(g, Step(g, s, ws[0]), ws[1..], w);
      assert (ws + [w])[1..] == ws[1..] + [w];
    }
  }

  ghost function Initial(g: Header): State {
    State({g}, g)
  }

  /** No stored header is heavier than the head. */
  ghost predicate HeadHeaviest(g: Header, s: State)
    requires WellFormed(g, s)
  {
    forall h <- s.stored :: TotalDifficulty(g, h) <= TotalDifficulty(g, s.head)
  }

  /** Whatever is imported and however the coins fall, the head is a heaviest header of all stored,
      nothing stored is ever lost, and the head's total difficulty never decreases. */
  lemma {:induction false} RunHeadHeaviest(g: Header, s: State, ws: seq<Write>)
    requires WellFormed(g, s) && HeadHeaviest(g, s) && Legal(g, s, ws)
    ensures HeadHeaviest(g, Run(g, s, ws))
    ensures s.stored <= Run(g, s, ws).stored
    ensures TotalDifficulty(g, s.head) <= TotalDifficulty(g, Run(g, s, ws).head)
    decreases |ws|
  {
    if ws != [] {
      StepWellFormed(g, s, ws[0]);
      RunHeadHeaviest(g, Step(g, s, ws[0]), ws[1..]);
    }
  }

  /** The run leads from one state to the other, and a head that was heaviest is so in the end. */
  ghost predicate Ran(g: Header, s: State, ws: seq<Write>, s': State) {
    && WellFormed(g, s) && Legal(g, s, ws) && s' == Run(g, s, ws)
    && (HeadHeaviest(g, s) ==> HeadHeaviest(g, s'))
  }

  lemma RanNone(g: Header, s: State)
    requires WellFormed(g, s)
    ensures Ran(g, s, [], s)
  {
  }

  lemma RanStep(g: Header, s: State, ws: seq<Write>, s': State, w: Write)
    requires Ran(g, s, ws, s') && Fits(s', w.header)
    ensures Rooted(g, s') && Ran(g, s, ws + [w], Step(g, s', w))
  {
    RunAppend(g, s, ws, w);
    if HeadHeaviest(g, s) {
      RunHeadHeaviest(g, s, ws + [w]);
    }
  }

  /** The same from a fresh chain: the head is the heaviest of all headers written by the run. */
  lemma RunFromGenesis(g: Header, ws: seq<Write>)
    requires g.number == 0 && Legal(g, Initial(g), ws)
    ensures forall h <- Run(g, Initial(g), ws).stored ::
              TotalDifficulty(g, h) <= TotalDifficulty(g, Run(g, Initial(g), ws).head)
  {
    RunHeadHeaviest(g, Initial(g), ws);
  }

  /** Every header above genesis has the difficulty that `CalcDifficulty` prescribes. */
  ghost predicate ConstantDifficulty(g: Header, s: State) {
    forall h <- s.stored :: h == g || h.difficulty == DIFFICULTY
  }

  lemma {:induction false} DifficultyByHeight(g: Header, s: State, h: Header)
    requires WellFormed(g, s) && ConstantDifficulty(g, s) && h in s.stored
    ensures TotalDifficulty(g, h) == g.difficulty + DIFFICULTY * h.number
    decreases h
  {
    if h == g {
      assert SumDifficulty(Branch(g, g)[..0]) == 0;
    } else {
      TotalDifficultyStep(g, h);
      AncestorStored(g, s, h, h.number - 1);
      DifficultyByHeight(g, s, h.parentHash.header);
    }
  }

  lemma StepKeepsHeight(g: Header, s: State, w: Write)
    requires WellFormed(g, s) && Fits(s, w.header) && ConstantDifficulty(g, Step(g, s, w))
    ensures s.head.number <= Step(g, s, w).head.number
  {
    StepWellFormed(g, s, w);
    DifficultyByHeight(g, Step(g, s, w), s.head);
    DifficultyByHeight(g, Step(g, s, w), Step(g, s, w).head);
  }

  /** With validated difficulties total difficulty is height, so the head never loses height. */
  lemma {:induction false} RunHeightNeverDrops(g: Header, s: State, ws: seq<Write>)
    requires WellFormed(g, s) && ConstantDifficulty(g, s) && Legal(g, s, ws)
    requires forall w <- ws :: w.header.difficulty == DIFFICULTY
    ensures ConstantDifficulty(g, Run(g, s, ws))
    ensures forall h <- Run(g, s, ws).stored :: TotalDifficulty(g, h) == g.difficulty + DIFFICULTY * h.number
    ensures s.head.number <= Run(g, s, ws).head.number
    decreases |ws|
  {
    if ws == [] {
      forall h <- s.stored ensures TotalDifficulty(g, h) == g.difficulty + DIFFICULTY * h.number {
        DifficultyByHeight(g, s, h);
      }
    } else {
      StepWellFormed(g, s, ws[0]);
      StepKeepsHeight(g, s, ws[0]);
      RunHeightNeverDrops(g, Step(g, s, ws[0]), ws[1..]);
    }
  }
}
