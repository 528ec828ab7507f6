/** Uncle verification, and why no header is ever rewarded twice. */
module Uncles {
  import opened ChainTypes
  import opened Ancestry
  import opened HeaderRules
  import FC = ForkChoice

  const WINDOW: nat := 7
  const MAX_UNCLES := 2

  datatype UncleError = TooManyUncles | NotUnique | IsAncestor | ParentNotAncestor | InvalidHeader(error: HeaderError)

  /** The up to seven nearest ancestors of `b`. */
  ghost function Window(g: Header, b: Header): set<Header>
    requires Linked(g, b)
  {
    set n | 0 <= n < b.number && b.number - WINDOW <= n :: Branch(g, b)[n]
  }

  /** One uncle obeys the rules, given the uncles listed before it. */
  ghost predicate UncleOk(g: Header, config: ChainConfig, pow: Header -> bool, now: int, b: Header, i: nat)
    requires Linked(g, b) && i < |b.uncles|
  {
    var u, w := b.uncles[i], Window(g, b);
    && u !in b.uncles[..i] && u != b && (forall a <- w :: u !in a.uncles)
    && u !in w
    && u.parentHash.Digest? && u.parentHash.header in w + {b} && u.parentHash != b.parentHash
    && ValidateHeader(config, pow, u, u.parentHash.header, now, true, true).None?
  }

  ghost predicate UnclesOk(g: Header, config: ChainConfig, pow: Header -> bool, now: int, b: Header)
    requires Linked(g, b)
  {
    |b.uncles| <= MAX_UNCLES && forall i | 0 <= i < |b.uncles| :: UncleOk(g, config, pow, now, b, i)
  }

  /** The rules for one uncle on the line itself: listed once, neither it nor any of the seven blocks before its block, in
      none of their uncles, and a valid child of one of them but the nearest. */
  lemma UncleOkIff(g: Header, config: ChainConfig, pow: Header -> bool, now: int, b: Header, i: nat)
    requires Linked(g, b) && b != g && i < |b.uncles|
    ensures var u, line := b.uncles[i], Branch(g, b);
            UncleOk(g, config, pow, now, b, i) <==>
            && u !in b.uncles[..i]
            && (forall n | 0 <= n < b.number && b.number - 7 <= n :: line[n] != u && u !in line[n].uncles)
            && (exists n | 0 <= n < b.number - 1 && b.number - 7 <= n :: u.parentHash == Digest(line[n]))
            && ValidateHeader(config, pow, u, u.parentHash.header, now, true, true).None?
  {
    hide Linked, Branch, ValidateHeader;
    var u, line, w := b.uncles[i], Branch(g, b), Window(g, b);
    BranchNumbered(g, b);
    BranchStep(g, b, b.number);
    assert u in b.uncles && u != b && u.parentHash != Digest(b) by { UncleSmaller(b, i); }
    if UncleOk(g, config, pow, now, b, i) {
      var n :| 0 <= n < b.number && b.number - WINDOW <= n && line[n] == u.parentHash.header;
      assert n != b.number - 1;
    }
  }

  /** A block may have up to two uncles, in any order that lists none twice. */
  lemma UnclesOkIff(g: Header, config: ChainConfig, pow: Header -> bool, now: int, b: Header)
    requires Linked(g, b)
    ensures UnclesOk(g, config, pow, now, b) <==>
            |b.uncles| <= 2 && forall i | 0 <= i < |b.uncles| :: UncleOk(g, config, pow, now, b, i)
    ensures UnclesOk(g, config, pow, now, b) ==> forall i, j | 0 <= i < j < |b.uncles| :: b.uncles[i] != b.uncles[j]
  {
    hide Linked, ValidateHeader, Window;
    if UnclesOk(g, config, pow, now, b) {
      forall i, j | 0 <= i < j < |b.uncles| ensures b.uncles[i] != b.uncles[j] {
        assert UncleOk(g, config, pow, now, b, j) && b.uncles[..j][i] == b.uncles[i];
      }
    }
  }

  /** A block is neither its own uncle nor the parent of one. */
  lemma UncleSmaller(b: Header, i: nat)
    requires i < |b.uncles|
    ensures b.uncles[i] != b && b.uncles[i].parentHash != Digest(b)
  {
    var u := b.uncles[i];
    assert u < b && u.parentHash < u && (u.parentHash.Digest? ==> u.parentHash.header < u.parentHash);
  }

  /** The block of that hash and up to `n - 1` ancestors, nearest first. */
  method GetBlocksFromHash(ghost g: Header, blocks: set<Header>, start: Header, n: nat) returns (found: seq<Header>)
    requires FC.WellFormed(g, FC.State(blocks, start))
    ensures |found| == if n <= start.number then n else start.number + 1
    ensures forall i | 0 <= i < |found| :: found[i] == Branch(g, start)[start.number - i]
  {
    hide Linked, Branch;
    found := [];
    var hash, number: int := Digest(start), start.number;
    var i := 0;
    while i < n
      invariant 0 <= i <= n && i == |found| && number == start.number - i && -1 <= number
      invariant 0 <= number ==> hash == Digest(Branch(g, start)[number]) && Branch(g, start)[number] in blocks
                                && Branch(g, start)[number].number == number
      invariant forall k | 0 <= k < i :: found[k] == Branch(g, start)[start.number - k]
    {
      if !(hash.Digest? && hash.header in blocks && hash.header.number == number) {
        break;
      }
      var block := hash.header;
      found := found + [block];
      if 0 < number {
        FC.AncestorStored(g, FC.State(blocks, start), start, number - 1);
      }
      hash := block.parentHash;
      number := number - 1;
      i := i + 1;
    }
  }

  /** Collects the ancestor window and the uncles its blocks already include. */
  method CollectWindow(ghost g: Header, blocks: set<Header>, block: Header)
    returns (ancestors: set<Header>, uncles: set<Header>)
    requires block.parentHash.Digest? && FC.WellFormed(g, FC.State(blocks, block.parentHash.header))
    requires block.number == block.parentHash.header.number + 1
    ensures Linked(g, block) && ancestors == Window(g, block)
    ensures forall u :: u in uncles <==> exists a <- ancestors :: u in a.uncles
  {
    hide Linked, Branch;
    var parent := block.parentHash.header;
    BranchChild(g, parent, block);
    var window := GetBlocksFromHash(g, blocks, parent, WINDOW);
    ancestors, uncles := {}, {};
    for i := 0 to |window|
      invariant ancestors == set k | 0 <= k < i :: window[k]
      invariant forall u :: u in uncles <==> exists a <- ancestors :: u in a.uncles
    {
      ancestors := ancestors + {window[i]};
      uncles := uncles + set u | u in window[i].uncles;
    }
    assert ancestors == Window(g, block) by {
      forall n | 0 <= n < block.number && block.number - WINDOW <= n ensures Branch(g, block)[n] in ancestors {
        assert window[parent.number - n] == Branch(g, block)[n];
      }
      forall k | 0 <= k < |window| ensures window[k] in Window(g, block) {
        assert window[k] == Branch(g, block)[parent.number - k];
      }
    }
  }

  /** Accepts a block's uncles exactly when they obey the rules. */
  method VerifyUncles(ghost g: Header, config: ChainConfig, pow: Header -> bool, now: int, blocks: set<Header>,
                      block: Header)
    returns (err: Option<UncleError>)
    requires block.parentHash.Digest? && FC.WellFormed(g, FC.State(blocks, block.parentHash.header))
    requires block.number == block.parentHash.header.number + 1
    ensures Linked(g, block) && (err.None? <==> UnclesOk(g, config, pow, now, block))
  {
    hide Linked, Branch, Window, ValidateHeader;
    var ancestors, uncles := CollectWindow(g, blocks, block);
    if |block.uncles| > MAX_UNCLES {
      return Some(TooManyUncles);
    }
    ghost var before := uncles;
    uncles := uncles + {block};
    ancestors := ancestors + {block};
    for i := 0 to |block.uncles|
      invariant uncles == before + {block} + set u | u in block.uncles[..i]
      invariant forall k | 0 <= k < i :: UncleOk(g, config, pow, now, block, k)
    {
      var uncle := block.uncles[i];
      if uncle in uncles {
        assert !UncleOk(g, config, pow, now, block, i);
        return Some(NotUnique);
      }
      uncles := uncles + {uncle};
      if uncle in ancestors {
        assert !UncleOk(g, config, pow, now, block, i);
        return Some(IsAncestor);
      }
      if !(uncle.parentHash.Digest? && uncle.parentHash.header in ancestors) || uncle.parentHash == block.parentHash {
        assert !UncleOk(g, config, pow, now, block, i);
        return Some(ParentNotAncestor);
      }
      var invalid := ValidateHeader(config, pow, uncle, uncle.parentHash.header, now, true, true);
      if invalid.Some? {
        assert !UncleOk(g, config, pow, now, block, i);
        return Some(InvalidHeader(invalid.value));
      }
    }
    return None;
  }

  /** An uncle's parent is an ancestor of the block other than its parent, so the uncle is one to six
      numbers below the block. */
  lemma UncleDistance(g: Header, config: ChainConfig, pow: Header -> bool, now: int, b: Header, i: nat)
    requires Linked(g, b) && b != g && i < |b.uncles| && UncleOk(g, config, pow, now, b, i)
    ensures b.number - 6 <= b.uncles[i].number <= b.number - 1
  {
    var u := b.uncles[i];
    var p := u.parentHash.header;
    assert p != b by {
      assert u < b;
      assert p < u;
    }
    var n :| 0 <= n < b.number && b.number - WINDOW <= n && Branch(g, b)[n] == p;
    BranchPrefix(g, b, n);
    BranchStep(g, b, b.number);
  }

  /** Every block of the line above genesis passed `VerifyUncles`. */
  ghost predicate LineVerified(g: Header, config: ChainConfig, pow: Header -> bool, now: int, head: Header)
    requires Linked(g, head)
  {
    forall n | 0 < n <= head.number ::
      Linked(g, Branch(g, head)[n]) && UnclesOk(g, config, pow, now, Branch(g, head)[n])
  }

  /** The window of a block on the line holds the line's seven blocks below it. */
  lemma WindowOnLine(g: Header, head: Header, n: nat, k: nat)
    requires Linked(g, head) && k < n <= head.number && n - WINDOW <= k
    ensures Linked(g, Branch(g, head)[n]) && Branch(g, head)[k] in Window(g, Branch(g, head)[n])
  {
    hide Linked, Branch;
    BranchPrefix(g, head, n);
    assert Branch(g, Branch(g, head)[n])[k] == Branch(g, head)[k];
  }

  lemma UncleNotOnLine(g: Header, config: ChainConfig, pow: Header -> bool, now: int, head: Header, n: nat, i: nat,
                       k: nat)
    requires Linked(g, head) && LineVerified(g, config, pow, now, head)
    requires 0 < n <= head.number && i < |Branch(g, head)[n].uncles| && k <= head.number
    ensures Branch(g, head)[n].uncles[i] != Branch(g, head)[k]
  {
    hide Linked, Branch, Window, ValidateHeader;
    BranchNumbered(g, head);
    assert UncleOk(g, config, pow, now, Branch(g, head)[n], i);
    UncleDistance(g, config, pow, now, Branch(g, head)[n], i);
    if n - WINDOW <= k < n {
      WindowOnLine(g, head, n, k);
    }
  }

  lemma UncleInOneBlock(g: Header, config: ChainConfig, pow: Header -> bool, now: int, head: Header,
                        n: nat, i: nat, m: nat, j: nat)
    requires Linked(g, head) && LineVerified(g, config, pow, now, head)
    requires 0 < n < m <= head.number && i < |Branch(g, head)[n].uncles| && j < |Branch(g, head)[m].uncles|
    ensures Branch(g, head)[n].uncles[i] != Branch(g, head)[m].uncles[j]
  {
    hide Linked, Branch, Window, ValidateHeader;
    BranchNumbered(g, head);
    assert UncleOk(g, config, pow, now, Branch(g, head)[n], i);
    assert UncleOk(g, config, pow, now, Branch(g, head)[m], j);
    UncleDistance(g, config, pow, now, Branch(g, head)[n], i);
    UncleDistance(g, config, pow, now, Branch(g, head)[m], j);
    if m - WINDOW <= n {
      WindowOnLine(g, head, m, n);
    }
  }

  /** On a verified line no header is rewarded twice: no uncle is also a block of the line, and no uncle
      is listed twice, in one block or in two. */
  lemma NoHeaderRewardedTwice(g: Header, config: ChainConfig, pow: Header -> bool, now: int, head: Header)
    requires Linked(g, head) && LineVerified(g, config, pow, now, head)
    ensures forall n, i | 0 < n <= head.number && 0 <= i < |Branch(g, head)[n].uncles| ::
              Branch(g, head)[n].uncles[i] !in Branch(g, head)
    ensures forall n, i, m, j |
              && 0 < n <= head.number && 0 <= i < |Branch(g, head)[n].uncles|
              && 0 < m <= head.number && 0 <= j < |Branch(g, head)[m].uncles|
              && Branch(g, head)[n].uncles[i] == Branch(g, head)[m].uncles[j] ::
              n == m && i == j
  {
    hide Linked, Branch, UncleOk;
    var line := Branch(g, head);
    forall n, i | 0 < n <= head.number && 0 <= i < |line[n].uncles| ensures line[n].uncles[i] !in line {
      forall k | 0 <= k < |line| ensures line[n].uncles[i] != line[k] {
        UncleNotOnLine(g, config, pow, now, head, n, i, k);
      }
    }
    forall n, i, m, j |
      && 0 < n <= head.number && 0 <= i < |line[n].uncles| && 0 < m <= head.number && 0 <= j < |line[m].uncles|
      && line[n].uncles[i] == line[m].uncles[j]
      ensures n == m && i == j
    {
      if n < m {
        UncleInOneBlock(g, config, pow, now, head, n, i, m, j);
      } else if m < n {
        UncleInOneBlock(g, config, pow, now, head, m, j, n, i);
      } else {
        UnclesDistinct(g, config, pow, now, line[n], i, j);
      }
    }
  }

  lemma UnclesDistinct(g: Header, config: ChainConfig, pow: Header -> bool, now: int, b: Header, i: nat, j: nat)
    requires Linked(g, b) && UnclesOk(g, config, pow, now, b) && i < |b.uncles| && j < |b.uncles|
    requires b.uncles[i] == b.uncles[j]
    ensures i == j
  {
    hide Linked, ValidateHeader, Window;
    assert UncleOk(g, config, pow, now, b, i) && UncleOk(g, config, pow, now, b, j);
  }
}
