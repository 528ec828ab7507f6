/** Which side blocks the miner includes as uncles, and when verification then accepts them. */
module UncleSelection {
  import opened ChainTypes
  import opened Ancestry
  import opened HeaderRules
  import opened Uncles
  import FC = ForkChoice

  /** What the miner asks of the uncles it includes. */
  ghost predicate Chosen(g: Header, b: Header)
    requires Linked(g, b)
  {
    |b.uncles| <= MAX_UNCLES && forall i | 0 <= i < |b.uncles| :: ChosenAt(Window(g, b), b.uncles, i)
  }

  ghost predicate ChosenAt(window: set<Header>, uncles: seq<Header>, i: nat)
    requires i < |uncles|
  {
    var u := uncles[i];
    && u !in uncles[..i] && u !in window && (forall a <- window :: u !in a.uncles)
    && u.parentHash.Digest? && u.parentHash.header in window
  }

  /** A block that cannot be an uncle: its parent is not near, it is an ancestor, or it was an uncle before. */
  ghost predicate Ineligible(window: set<Header>, u: Header) {
    !(u.parentHash.Digest? && u.parentHash.header in window) || u in window || exists a <- window :: u in a.uncles
  }

  /** The window does not depend on the uncles of the block itself. */
  lemma SameWindow(g: Header, b: Header, uncles: seq<Header>)
    requires b.parentHash.Digest? && Linked(g, b.parentHash.header) && b.number == b.parentHash.header.number + 1
    ensures Linked(g, b) && Linked(g, b.(uncles := uncles)) && Window(g, b) == Window(g, b.(uncles := uncles))
  {
    hide Linked, Branch;
    var p, c := b.parentHash.header, b.(uncles := uncles);
    BranchChild(g, p, b);
    BranchChild(g, p, c);
    assert forall n | 0 <= n < b.number :: Branch(g, b)[n] == Branch(g, p)[n] == Branch(g, c)[n];
  }

  /** Goes over the possible uncles in any order and takes up to two. */
  method ChooseUncles(ghost g: Header, blocks: set<Header>, header: Header, possible: set<Header>)
    returns (chosen: seq<Header>, bad: set<Header>)
    requires header.parentHash.Digest? && FC.WellFormed(g, FC.State(blocks, header.parentHash.header))
    requires header.number == header.parentHash.header.number + 1
    ensures Linked(g, header.(uncles := chosen)) && Chosen(g, header.(uncles := chosen))
    ensures (forall u <- chosen :: u in possible) && bad <= possible && forall u <- chosen :: u !in bad
    // only what cannot be an uncle is refused, and nothing else is passed over while there is room
    ensures forall u <- bad :: Ineligible(Window(g, header.(uncles := chosen)), u)
    ensures |chosen| == MAX_UNCLES || forall u <- possible :: u in chosen || u in bad
  {
    hide Linked, Branch, Window, FC.Closed;
    var ancestors, seen := CollectWindow(g, blocks, header);
    var family := ancestors + seen;
    chosen, bad := [], {};
    var rest := possible;
    while rest != {} && |chosen| < MAX_UNCLES
      invariant rest <= possible && bad <= possible - rest && |chosen| <= MAX_UNCLES
      invariant forall u <- chosen :: u in possible - rest && u !in bad
      invariant forall u <- possible - rest :: u in chosen || u in bad
      invariant forall u <- bad :: Ineligible(ancestors, u)
      invariant forall i | 0 <= i < |chosen| :: ChosenAt(ancestors, chosen, i)
      decreases rest
    {
      var uncle :| uncle in rest;
      rest := rest - {uncle};
      if uncle in chosen || !(uncle.parentHash.Digest? && uncle.parentHash.header in ancestors) || uncle in family {
        bad := bad + {uncle};
      } else {
        ghost var before := chosen;
        chosen := chosen + [uncle];
        assert chosen[..|before|] == before;
        forall i | 0 <= i < |chosen| ensures ChosenAt(ancestors, chosen, i) {
          assert i < |before| ==> ChosenAt(ancestors, before, i) && chosen[..i] == before[..i];
        }
      }
    }
    SameWindow(g, header, chosen);
  }

  ghost predicate NoSibling(config: ChainConfig, pow: Header -> bool, now: int, b: Header, u: Header) {
    && u.parentHash.Digest? && u.parentHash != b.parentHash
    && ValidateHeader(config, pow, u, u.parentHash.header, now, true, true).None?
  }

  /** Verification accepts the miner's uncles if and only if none of them has the parent of the block itself and
      their headers are valid. */
  lemma ChosenAcceptedIff(g: Header, config: ChainConfig, pow: Header -> bool, now: int, b: Header)
    requires Linked(g, b) && Chosen(g, b)
    ensures UnclesOk(g, config, pow, now, b) <==> forall u <- b.uncles :: NoSibling(config, pow, now, b, u)
  {
    hide Linked, Branch, Window, ValidateHeader;
    forall i | 0 <= i < |b.uncles|
      ensures UncleOk(g, config, pow, now, b, i) <==> NoSibling(config, pow, now, b, b.uncles[i])
    {
      assert ChosenAt(Window(g, b), b.uncles, i);
      assert b.uncles[i] != b;
    }
  }

  function Block(parentHash: Hash, number: nat, time: int, nonce: nat, uncles: seq<Header>): Header {
    Header(parentHash, number, FC.DIFFICULTY, time, 8192, 0, 0, [], nonce, [], uncles, map[])
  }

  const PLAIN := ChainConfig(None, None, false, None, Zero, None)

  /** The miner can include a block that has the same parent as its own.  Both are valid, and verification refuses. */
  lemma SiblingChosen(now: int) returns (g: Header, b: Header, sibling: Header)
    requires 1 <= now
    ensures var pow := (h: Header) => true;
            && b.uncles == [sibling] && sibling.parentHash == b.parentHash == Digest(g)
            && ValidateHeader(PLAIN, pow, sibling, g, now, true, true).None?
            && ValidateHeader(PLAIN, pow, b, g, now, true, false).None?
            && Linked(g, b) && Chosen(g, b) && !UnclesOk(g, PLAIN, pow, now, b)
  {
    hide Linked, Branch;
    var pow := (h: Header) => true;
    g := Block(Zero, 0, 0, 0, []);
    sibling := Block(Digest(g), 1, 1, 1, []);
    b := Block(Digest(g), 1, 1, 2, [sibling]);
    BranchGenesis(g);
    BranchChild(g, g, b);
    assert Window(g, b) == {g};
    hide ValidateHeader;
    ChosenAcceptedIff(g, PLAIN, pow, now, b);
    assert sibling in b.uncles;
  }
}
