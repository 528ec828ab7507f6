/** The ancestor line of a header and its total difficulty, defined from the hashes alone. */
module Ancestry {
  import opened ChainTypes

  /** `h` descends from genesis `g` through parents numbered one by one. */
  ghost predicate Linked(g: Header, h: Header)
    decreases h
  {
    && g.number == 0
    && (h == g ||
        (&& h.parentHash.Digest?
         && h.number == h.parentHash.header.number + 1
         && Linked(g, h.parentHash.header)))
  }

  /** The headers from genesis to `h`, each at the index of its own number. */
  ghost function Branch(g: Header, h: Header): (b: seq<Header>)
    requires Linked(g, h)
    ensures |b| == h.number + 1
    ensures b[0] == g && b[h.number] == h
    decreases h
  {
    if h == g then [g] else Branch(g, h.parentHash.header) + [h]
  }

  lemma BranchChild(g: Header, p: Header, h: Header)
    requires Linked(g, p) && h.parentHash == Digest(p) && h.number == p.number + 1
    ensures Linked(g, h) && Branch(g, h) == Branch(g, p) + [h]
  {
  }

  lemma BranchGenesis(g: Header)
    requires g.number == 0
    ensures Linked(g, g) && Branch(g, g) == [g]
  {
  }

  /** Every prefix of a branch is the branch of its last header. */
  lemma {:induction false} BranchPrefix(g: Header, h: Header, n: nat)
    requires Linked(g, h) && n <= h.number
    ensures Linked(g, Branch(g, h)[n])
    ensures Branch(g, h)[n].number == n
    ensures Branch(g, Branch(g, h)[n]) == Branch(g, h)[..n + 1]
    decreases h
  {
    if n < h.number {
      BranchPrefix(g, h.parentHash.header, n);
    }
  }

  /** Each header of the line sits at the index of its own number. */
  ghost predicate Numbered(line: seq<Header>) {
    forall n | 0 <= n < |line| :: line[n].number == n
  }

  lemma BranchNumbered(g: Header, h: Header)
    requires Linked(g, h)
    ensures Numbered(Branch(g, h))
  {
    forall n | 0 <= n <= h.number ensures Branch(g, h)[n].number == n {
      BranchPrefix(g, h, n);
    }
  }

  /** On a branch each header above genesis names the one below it as its parent. */
  lemma BranchStep(g: Header, h: Header, n: nat)
    requires Linked(g, h) && 0 < n <= h.number
    ensures Branch(g, h)[n].parentHash == Digest(Branch(g, h)[n - 1])
  {
    BranchPrefix(g, h, n);
    BranchPrefix(g, h, n - 1);
    var b := Branch(g, h)[n];
    assert Branch(g, b)[n - 1] == Branch(g, h)[n - 1];
  }

  /** Two branches that meet at a number are equal up to it. */
  lemma BranchesMeet(g: Header, a: Header, b: Header, n: nat)
    requires Linked(g, a) && Linked(g, b) && n <= a.number && n <= b.number
    requires Branch(g, a)[n] == Branch(g, b)[n]
    ensures Branch(g, a)[..n + 1] == Branch(g, b)[..n + 1]
  {
    BranchPrefix(g, a, n);
    BranchPrefix(g, b, n);
  }

  ghost function SumDifficulty(s: seq<Header>): int {
    if s == [] then 0 else SumDifficulty(s[..|s| - 1]) + s[|s| - 1].difficulty
  }

  /** Sum of the difficulties along the ancestor line. */
  ghost function TotalDifficulty(g: Header, h: Header): int
    requires Linked(g, h)
  {
    SumDifficulty(Branch(g, h))
  }

  lemma TotalDifficultyStep(g: Header, h: Header)
    requires Linked(g, h) && h != g
    ensures TotalDifficulty(g, h) == TotalDifficulty(g, h.parentHash.header) + h.difficulty
  {
    var b := Branch(g, h);
    assert b[..|b| - 1] == Branch(g, h.parentHash.header);
  }

  /** The number-to-hash map that lists a line of headers. */
  ghost function Numbering(s: seq<Header>): (m: map<nat, Hash>) {
    map n: nat | n < |s| :: Digest(s[n])
  }
}
