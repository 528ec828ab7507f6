/** Header import and rewind: a number map, a header store, a total-difficulty store and their
caches, rewritten in place. */
module HeaderChains {
  import opened ChainTypes
  import opened Ancestry
  import FC = ForkChoice

  /** `Panicked` stands for the nil dereference of a header that is not stored. */
  datatype WriteStatus = NonStatTy | CanonStatTy | SideStatTy | Panicked

  /** The line `line` with the numbers strictly between `lo` and `hi` taken from `path`. */
  ghost function Patched(line: seq<Header>, path: seq<Header>, lo: int, hi: nat): map<nat, Hash>
    requires hi < |path| && |line| <= hi + 1
  {
    map n: nat | n <= hi && (n < |line| || lo < n < hi) :: Digest(if lo < n < hi then path[n] else line[n])
  }

  lemma PatchStep(line: seq<Header>, path: seq<Header>, lo: nat, hi: nat)
    requires hi < |path| && |line| <= hi + 1 && lo < hi
    ensures Patched(line, path, lo, hi)[lo := Digest(path[lo])] == Patched(line, path, lo - 1, hi)
  {
  }

  /** What is left of a line once the numbers above `n` are dropped. */
  ghost function UpTo(line: seq<Header>, n: nat): seq<Header> {
    if n < |line| then line[..n + 1] else line
  }

  /** The headers of a line numbered above `n`. */
  ghost function Above(line: seq<Header>, n: int): set<Header> {
    set m | n < m < |line| && 0 <= m :: line[m]
  }

  lemma AboveTop(line: seq<Header>, n: nat)
    requires Numbered(line) && 0 < |line|
    ensures Above(line, |line| - 1) == {}
    ensures |line| - 1 <= n ==> Above(line, n) == {}
  {
  }

  lemma AboveStep(line: seq<Header>, n: nat)
    requires Numbered(line) && 0 < n < |line|
    ensures Above(line, n - 1) == Above(line, n) + {line[n]}
    ensures line[n - 1] !in Above(line, n - 1)
  {
  }

  /** A rewound line is the branch of the header it ends in, which stays stored. */
  lemma UpToBranch(g: Header, s: FC.State, n: nat)
    requires FC.WellFormed(g, s)
    ensures var line := Branch(g, s.head);
            var last := if n < s.head.number then line[n] else s.head;
            && Linked(g, last) && Branch(g, last) == UpTo(line, n)
            && last in s.stored - Above(line, n)
  {
    var m := if n < s.head.number then n else s.head.number;
    BranchPrefix(g, s.head, m);
    BranchNumbered(g, s.head);
  }

  /** Dropping the top of the head's line keeps ancestors stored exactly when nothing hangs off it. */
  lemma RewindClosed(g: Header, s: FC.State, head: nat)
    requires FC.WellFormed(g, s)
    ensures var dropped := Above(Branch(g, s.head), head);
            FC.Closed(g, s.stored - dropped) <==>
            forall h <- s.stored - dropped :: h != g ==> h.parentHash.header !in dropped
  {
    FC.ClosedIffParents(g, s.stored);
    FC.ClosedIffParents(g, s.stored - Above(Branch(g, s.head), head));
  }

  /** Before the walk nothing is patched. */
  lemma PatchNone(line: seq<Header>, path: seq<Header>)
    requires 1 < |path| && |line| <= |path|
    ensures Patched(line, path, |path| - 2, |path| - 1) == Numbering(line)
  {
  }

  /** The walk ends at genesis at the latest. */
  lemma PatchAtZero(g: Header, head: Header, header: Header, lo: nat)
    requires Linked(g, head) && Linked(g, header) && lo < header.number
    ensures var map' := Patched(UpTo(Branch(g, head), header.number), Branch(g, header), lo, header.number);
            lo == 0 ==> lo in map' && map'[lo] == Digest(Branch(g, header)[lo])
  {
  }

  lemma PatchLine(line: seq<Header>, path: seq<Header>, lo: nat)
    requires |line| <= |path| && lo + 1 < |path| && lo < |line| && line[..lo + 1] == path[..lo + 1]
    ensures Patched(line, path, lo, |path| - 1)[|path| - 1 := Digest(path[|path| - 1])] == Numbering(path)
  {
    forall n: nat | n <= lo ensures line[n] == path[n] {
      assert line[..lo + 1][n] == path[..lo + 1][n];
    }
  }

  /** Once the walk back meets the old line, patching has produced the new one. */
  lemma PatchMeets(g: Header, head: Header, header: Header, lo: nat)
    requires Linked(g, head) && Linked(g, header) && lo < header.number
    requires var line := UpTo(Branch(g, head), header.number);
             var m := Patched(line, Branch(g, header), lo, header.number);
             lo in m && m[lo] == Digest(Branch(g, header)[lo])
    ensures var line := UpTo(Branch(g, head), header.number);
            var m := Patched(line, Branch(g, header), lo, header.number);
            m[header.number := Digest(header)] == Numbering(Branch(g, header))
  {
    hide Linked, Branch;
    var line, path := Branch(g, head), Branch(g, header);
    BranchesMeet(g, head, header, lo);
    assert UpTo(line, header.number)[..lo + 1] == line[..lo + 1];
    PatchLine(UpTo(line, header.number), path, lo);
  }

  /** Every ancestor of `header` is stored or on the line of `head`. */
  ghost predicate Reachable(g: Header, stored: set<Header>, head: Header, header: Header)
    requires Linked(g, head) && Linked(g, header)
  {
    forall n: nat | n < header.number :: Branch(g, header)[n] in stored || OnLine(g, head, Branch(g, header)[n], n)
  }

  ghost predicate OnLine(g: Header, head: Header, h: Header, n: nat)
    requires Linked(g, head)
  {
    n <= head.number && Branch(g, head)[n] == h
  }

  /** Where everything stored has its ancestors stored that holds of every child. */
  lemma ClosedReachable(g: Header, s: FC.State, header: Header)
    requires FC.WellFormed(g, s) && FC.Knows(s, header.parentHash) && FC.Fits(s, header)
    ensures Linked(g, header) && Reachable(g, s.stored, s.head, header)
  {
    hide Branch;
    BranchChild(g, header.parentHash.header, header);
    forall n: nat | n < header.number ensures Branch(g, header)[n] in s.stored {
      assert Branch(g, header)[n] == Branch(g, header.parentHash.header)[n];
    }
  }

  /** Storing the header itself changes nothing about its ancestors. */
  lemma ReachableMore(g: Header, stored: set<Header>, head: Header, header: Header)
    requires Linked(g, head) && Linked(g, header)
    ensures Reachable(g, stored + {header}, head, header) <==> Reachable(g, stored, head, header)
  {
    hide Linked, Branch, OnLine;
    BranchNumbered(g, header);
  }

  /** What the map holds at the place the walk has reached is what the old line has there. */
  lemma PatchAt(g: Header, head: Header, header: Header, lo: nat)
    requires Linked(g, head) && Linked(g, header) && lo < header.number
    ensures var m := Patched(UpTo(Branch(g, head), header.number), Branch(g, header), lo, header.number);
            (lo in m && m[lo] == Digest(Branch(g, header)[lo])) <==> OnLine(g, head, Branch(g, header)[lo], lo)
  {
    hide Linked, Branch;
  }

  /** Below a meeting point the two lines are one. */
  lemma MeetsBelow(g: Header, head: Header, header: Header, lo: nat)
    requires Linked(g, head) && Linked(g, header) && lo < header.number && OnLine(g, head, Branch(g, header)[lo], lo)
    ensures forall n: nat | n <= lo :: OnLine(g, head, Branch(g, header)[n], n)
  {
    hide Linked, Branch;
    BranchesMeet(g, head, header, lo);
    forall n: nat | n <= lo ensures OnLine(g, head, Branch(g, header)[n], n) {
      assert Branch(g, head)[..lo + 1][n] == Branch(g, header)[..lo + 1][n];
    }
  }

  /** An import has dealt with the first headers of a chain without an interrupt: exactly these are stored besides. */
  ghost predicate Came(chain: seq<Header>, interrupts: seq<bool>, before: set<Header>, after: set<Header>, reached: nat)
    requires |interrupts| == |chain|
  {
    && reached <= |chain| && after == before + (set h | h in chain[..reached])
    && forall i | 0 <= i < reached :: !interrupts[i]
  }

  /** It stops only at the end, at an interrupt or at a header whose parent is not stored. */
  ghost predicate Ended(chain: seq<Header>, interrupts: seq<bool>, stored: set<Header>, reached: nat, failed: bool)
    requires |interrupts| == |chain|
  {
    if reached >= |chain| || interrupts[reached] then !failed
    else failed && !(chain[reached].parentHash.Digest? && chain[reached].parentHash.header in stored)
  }

  lemma CameNone(chain: seq<Header>, interrupts: seq<bool>, stored: set<Header>)
    requires |interrupts| == |chain|
    ensures Came(chain, interrupts, stored, stored, 0)
  {
  }

  lemma CameStep(chain: seq<Header>, interrupts: seq<bool>, before: set<Header>, after: set<Header>, k: nat)
    requires k < |chain| == |interrupts| && !interrupts[k] && Came(chain, interrupts, before, after, k)
    ensures Came(chain, interrupts, before, after + {chain[k]}, k + 1)
  {
    assert chain[..k + 1] == chain[..k] + [chain[k]];
  }

  class HeaderChain {
    const genesisHeader: Header

    // The chain database.  Headers and total difficulties are filed under number and hash, and a
    // header determines both.
    var canonical: map<nat, Hash>
    var headers: set<Header>
    var tds: map<Header, int>
    var headHeaderHash: Hash

    var currentHeader: Header
    var currentHeaderHash: Hash

    // LRU caches by hash
    var headerCache: set<Header>
    var tdCache: map<Header, int>

    ghost function Abs(): FC.State
      reads `headers, `currentHeader
    {
      FC.State(headers, currentHeader)
    }

    /** Total difficulties are stored for exactly the stored headers, and are right. */
    ghost predicate DifficultiesStored()
      reads `headers, `tds
    {
      && (forall h <- headers :: Linked(genesisHeader, h))
      && tds.Keys == headers
      && forall h <- tds :: tds[h] == TotalDifficulty(genesisHeader, h)
    }

    /** Caches never hold anything the database does not. */
    ghost predicate CachesCoherent()
      reads `headers, `tds, `headerCache, `tdCache
    {
      headerCache <= headers && forall h <- tdCache :: h in tds && tds[h] == tdCache[h]
    }

    /** The number map is exactly the ancestor line of the head. */
    ghost predicate HeadCanonical()
      reads `canonical, `headHeaderHash, `currentHeaderHash, `currentHeader
    {
      && headHeaderHash == currentHeaderHash == Digest(currentHeader)
      && Linked(genesisHeader, currentHeader)
      && canonical == Numbering(Branch(genesisHeader, currentHeader))
    }

    /** What holds also after a rewind, when ancestors of stored headers may be gone. */
    ghost predicate Sound()
      reads this
    {
      DifficultiesStored() && CachesCoherent() && HeadCanonical() && currentHeader in headers
    }

    ghost predicate Valid()
      reads this
    {
      Sound() && FC.WellFormed(genesisHeader, Abs())
    }

    constructor (genesis: Header)
      requires genesis.number == 0
      ensures Valid() && genesisHeader == genesis && Abs() == FC.Initial(genesis)
    {
      genesisHeader := genesis;
      canonical := map[0 := Digest(genesis)];
      headers := {genesis};
      tds := map[genesis := genesis.difficulty];
      headHeaderHash, currentHeaderHash := Digest(genesis), Digest(genesis);
      currentHeader := genesis;
      headerCache, tdCache := {}, map[];
      new;
      assert SumDifficulty(Branch(genesis, genesis)[..0]) == 0;
    }

    function GetCanonicalHash(number: nat): Hash
      reads `canonical
    {
      if number in canonical then canonical[number] else Zero
    }

    /** Insertion into the difficulty cache; what it evicts is left open. */
    method CacheTd(h: Header, td: int)
      requires h in tds && tds[h] == td
      requires CachesCoherent()
      modifies this`tdCache
      ensures CachesCoherent() && h in tdCache
    {
      var kept: set<Header> := *;
      tdCache := (map k | k in tdCache && k in kept :: tdCache[k])[h := td];
    }

    method CacheHeader(h: Header)
      modifies this`headerCache
      ensures h in headerCache && headerCache <= old(headerCache) + {h}
      ensures old(CachesCoherent()) && h in headers ==> CachesCoherent()
    {
      var kept: set<Header> := *;
      headerCache := headerCache * kept + {h};
    }

    /** Reading through the cache answers what the database holds, at the hash's own number. */
    method GetTd(hash: Hash, number: int) returns (td: Option<int>)
      requires CachesCoherent()
      modifies this`tdCache
      ensures CachesCoherent()
      ensures td.Some? ==> hash.Digest? && hash.header in tds && td.value == tds[hash.header]
      ensures hash.Digest? && hash.header in tds && number == hash.header.number ==> td.Some?
    {
      if hash.Digest? && hash.header in tdCache {
        return Some(tdCache[hash.header]);
      }
      if !(hash.Digest? && hash.header in tds && hash.header.number == number) {
        return None;
      }
      td := Some(tds[hash.header]);
      CacheTd(hash.header, td.value);
    }

    method GetHeader(hash: Hash, number: int) returns (h: Option<Header>)
      modifies this`headerCache
      ensures h.Some? ==> hash == Digest(h.value) && h.value in headers + old(headerCache)
      ensures hash.Digest? && hash.header in headers && number == hash.header.number ==> h.Some?
      ensures headerCache <= headers + old(headerCache)
    {
      if hash.Digest? && hash.header in headerCache {
        return Some(hash.header);
      }
      if !(hash.Digest? && hash.header in headers && hash.header.number == number) {
        return None;
      }
      h := Some(hash.header);
      CacheHeader(hash.header);
    }

    /** Deletes the canonical assignments above `number`; `line` is the line listed so far. */
    method DeleteAbove(number: nat, ghost line: seq<Header>)
      requires canonical == Numbering(line)
      modifies this`canonical
      ensures canonical == Numbering(UpTo(line, number))
    {
      var i := number + 1;
      while GetCanonicalHash(i) != Zero
        invariant number < i
        invariant canonical == map n: nat | n < |line| && (n <= number || i <= n) :: Digest(line[n])
        decreases |line| - i
      {
        canonical := canonical - {i};
        i := i + 1;
      }
    }

    /** Overwrites stale assignments below `header`, walking back until the line already listed.  The walk ends there
        exactly if all ancestors it comes across are stored. */
    method OverwriteStale(header: Header, ghost line: seq<Header>) returns (ok: bool)
      requires CachesCoherent() && Linked(genesisHeader, currentHeader)
      requires Linked(genesisHeader, header) && header != genesisHeader
      requires line == UpTo(Branch(genesisHeader, currentHeader), header.number) && canonical == Numbering(line)
      modifies this`canonical, this`headerCache
      ensures CachesCoherent() && ok == Reachable(genesisHeader, headers, currentHeader, header)
      ensures ok ==> canonical[header.number := Digest(header)] == Numbering(Branch(genesisHeader, header))
    {
      hide Linked, Branch, Patched, OnLine;
      ghost var g := genesisHeader;
      ghost var path := Branch(g, header);
      BranchStep(g, header, header.number);
      BranchPrefix(g, header, header.number - 1);
      var headHash := header.parentHash;
      var headNumber := header.number - 1;
      var headHeader := GetHeader(headHash, headNumber);
      assert canonical == Patched(line, path, headNumber, header.number) by { PatchNone(line, path); }
      PatchAt(g, currentHeader, header, headNumber);
      while GetCanonicalHash(headNumber) != headHash
        invariant 0 <= headNumber < header.number && headHash == Digest(path[headNumber])
        invariant CachesCoherent() && headHeader == if path[headNumber] in headers then Some(path[headNumber]) else None
        invariant forall n: nat | headNumber < n < header.number :: path[n] in headers
        invariant canonical == Patched(line, path, headNumber, header.number)
        invariant GetCanonicalHash(headNumber) == headHash <==> OnLine(g, currentHeader, path[headNumber], headNumber)
        decreases headNumber
      {
        PatchStep(line, path, headNumber, header.number);
        PatchAtZero(g, currentHeader, header, headNumber);
        canonical := canonical[headNumber := headHash];
        if headHeader.None? {
          return false;
        }
        BranchStep(g, header, headNumber);
        BranchPrefix(g, header, headNumber - 1);
        headHash := headHeader.value.parentHash;
        headNumber := headNumber - 1;
        headHeader := GetHeader(headHash, headNumber);
        PatchAt(g, currentHeader, header, headNumber);
      }
      MeetsBelow(g, currentHeader, header, headNumber);
      PatchMeets(g, currentHeader, header, headNumber);
      ok := true;
    }

    /** Reroutes the canonical line to end at a header. */
    method SetCanonicalHead(header: Header) returns (ok: bool)
      requires CachesCoherent() && HeadCanonical()
      requires Linked(genesisHeader, header) && header != genesisHeader
      modifies this`canonical, this`headerCache, this`headHeaderHash, this`currentHeaderHash, this`currentHeader
      ensures CachesCoherent() && ok == Reachable(genesisHeader, headers, old(currentHeader), header)
      ensures ok ==> HeadCanonical() && currentHeader == header
    {
      hide Branch, Linked, Reachable;
      ghost var line := Branch(genesisHeader, currentHeader);
      DeleteAbove(header.number, line);
      ok := OverwriteStale(header, UpTo(line, header.number));
      if !ok {
        return;
      }
      canonical := canonical[header.number := Digest(header)];
      headHeaderHash := Digest(header);
      currentHeaderHash, currentHeader := Digest(header), header;
    }

    /** Files a header whose parent is stored, with its total difficulty. */
    method StoreHeader(header: Header, td: int)
      requires DifficultiesStored() && CachesCoherent() && FC.Rooted(genesisHeader, Abs())
      requires FC.Knows(Abs(), header.parentHash) && FC.Fits(Abs(), header)
      requires td == header.difficulty + tds[header.parentHash.header]
      modifies this`headers, this`tds, this`tdCache
      ensures DifficultiesStored() && CachesCoherent() && Linked(genesisHeader, header) && header != genesisHeader
      ensures old(FC.WellFormed(genesisHeader, Abs())) ==> FC.WellFormed(genesisHeader, Abs())
      ensures headers == old(headers) + {header} && tds[header] == td
    {
      hide Branch, SumDifficulty, FC.Closed;
      if FC.WellFormed(genesisHeader, Abs()) {
        FC.StepWellFormed(genesisHeader, Abs(), FC.Write(header, false));
      }
      BranchChild(genesisHeader, header.parentHash.header, header);
      TotalDifficultyStep(genesisHeader, header);
      tds := tds[header := td];
      headers := headers + {header};
      CacheTd(header, td);
    }

    /** Writes a header, and makes it the head if it is preferred.  On a chain that keeps all ancestors this is a step of
        the fork-choice machine; after a rewind it still is, unless the walk back comes across an ancestor that is gone. */
    method WriteHeader(header: Header, coin: bool) returns (status: WriteStatus)
      requires Sound() && FC.Fits(Abs(), header)
      modifies this
      ensures status == if !old(FC.Knows(Abs(), header.parentHash)) then NonStatTy
                        else if !FC.Preferred(genesisHeader, header, old(currentHeader), coin) then SideStatTy
                        else if old(Reachable(genesisHeader, headers, currentHeader, header)) then CanonStatTy
                        else Panicked
      ensures status != Panicked ==> Sound() && Abs() == FC.Step(genesisHeader, old(Abs()), FC.Write(header, coin))
      ensures old(Valid()) ==> Valid() && status != Panicked
    {
      hide Linked, TotalDifficulty, CachesCoherent, Reachable, FC.Closed, Branch;
      var hash, number: int := Digest(header), header.number;
      var ptd := GetTd(header.parentHash, number - 1);
      if ptd.None? {
        return NonStatTy;
      }
      if FC.WellFormed(genesisHeader, Abs()) {
        ClosedReachable(genesisHeader, Abs(), header);
      }
      var localTd := GetTd(currentHeaderHash, currentHeader.number);
      var externTd := header.difficulty + ptd.value;
      StoreHeader(header, externTd);
      ReachableMore(genesisHeader, old(headers), currentHeader, header);
      if externTd > localTd.value || (externTd == localTd.value && coin) {
        var ok := SetCanonicalHead(header);
        if !ok {
          return Panicked;
        }
        status := CanonStatTy;
      } else {
        status := SideStatTy;
      }
      CacheHeader(header);
    }

    /** Writes a header unless it is there already. */
    method InsertHeader(header: Header, coin: bool) returns (known: bool, status: WriteStatus)
      requires Valid() && FC.Fits(Abs(), header)
      modifies this
      ensures Valid() && known == (header in old(headers))
      ensures Abs() == if known then old(Abs()) else FC.Step(genesisHeader, old(Abs()), FC.Write(header, coin))
      ensures !known ==> (status == NonStatTy <==> !FC.Knows(old(Abs()), header.parentHash))
      ensures headers == old(headers) + if known || status != NonStatTy then {header} else {}
    {
      hide Linked, FC.WellFormed, FC.Preferred;
      var found := GetHeader(Digest(header), header.number);
      known, status := found.Some?, NonStatTy;
      if !known {
        status := WriteHeader(header, coin);
      }
    }

    /** Writes verified headers until interrupted or one has no parent, skipping those it has, and tells how far it came.
        Everything before that point is stored.  What happens is a run of the fork-choice machine, so the head stays a
        heaviest header. */
    method InsertHeaders(chain: seq<Header>, coins: seq<bool>, interrupts: seq<bool>)
      returns (reached: nat, failed: bool, ghost written: seq<FC.Write>)
      requires Valid() && |coins| == |interrupts| == |chain|
      requires forall h <- chain :: h.parentHash.Digest? ==> h.number == h.parentHash.header.number + 1
      modifies this
      ensures Valid() && FC.Ran(genesisHeader, old(Abs()), written, Abs()) && forall w <- written :: w.header in chain
      ensures Came(chain, interrupts, old(headers), headers, reached)
      ensures Ended(chain, interrupts, headers, reached, failed)
    {
      ghost var s := Abs();
      hide FC.Ran, Came, Sound, FC.Closed, Linked;
      FC.RanNone(genesisHeader, s);
      CameNone(chain, interrupts, headers);
      hide Valid, FC.WellFormed;
      reached, failed, written := 0, false, [];
      while reached < |chain| && !interrupts[reached] && !failed
        invariant reached <= |chain| && Valid() && Came(chain, interrupts, old(headers), headers, reached)
        invariant failed ==> Ended(chain, interrupts, headers, reached, failed)
        invariant FC.Ran(genesisHeader, s, written, Abs()) && forall w <- written :: w.header in chain
        decreases |chain| - reached, !failed
      {
        var ok;
        CameStep(chain, interrupts, old(headers), headers, reached);
        ok, written := InsertNext(chain[reached], coins[reached], s, written);
        if ok {
          reached := reached + 1;
        } else {
          failed := true;
        }
      }
    }

    /** The next header of an import that has come from `s` by `before`. */
    method InsertNext(header: Header, coin: bool, ghost s: FC.State, ghost before: seq<FC.Write>)
      returns (ok: bool, ghost written: seq<FC.Write>)
      requires Valid() && FC.Fits(Abs(), header) && FC.Ran(genesisHeader, s, before, Abs())
      modifies this
      ensures Valid() && FC.Ran(genesisHeader, s, written, Abs())
      ensures written == before || written == before + [FC.Write(header, coin)]
      ensures headers == if ok then old(headers) + {header} else old(headers)
      ensures !ok ==> !FC.Knows(Abs(), header.parentHash)
    {
      hide Sound, FC.WellFormed, FC.Ran, FC.Preferred;
      written := before;
      var known, status := InsertHeader(header, coin);
      if !known {
        FC.RanStep(genesisHeader, s, before, old(Abs()), FC.Write(header, coin));
        written := before + [FC.Write(header, coin)];
      }
      ok := known || status != NonStatTy;
    }

    /** Deletes the headers of the current line above `head` and returns where the walk stopped. */
    method DeleteLine(head: nat) returns (current: Option<Header>)
      requires FC.WellFormed(genesisHeader, Abs())
      modifies this`headers, this`tds, this`headerCache
      ensures var line := Branch(genesisHeader, currentHeader);
              && current == Some(if head < currentHeader.number then line[head] else currentHeader)
              && headers == old(headers) - Above(line, head) && tds == old(tds) - Above(line, head)
    {
      hide Linked, Branch, Above;
      ghost var g, line, s := genesisHeader, Branch(genesisHeader, currentHeader), Abs();
      BranchNumbered(g, currentHeader);
      AboveTop(line, head);
      current := Some(currentHeader);
      while current.Some? && current.value.number > head
        invariant current.Some? && current.value.number < |line| && current.value == line[current.value.number]
        invariant headers == old(headers) - Above(line, current.value.number)
        invariant tds == old(tds) - Above(line, current.value.number)
        invariant current.value == currentHeader || head <= current.value.number
        decreases current.value.number
      {
        var c := current.value;
        AboveStep(line, c.number);
        headers, tds := headers - {c}, tds - {c};
        FC.AncestorStored(g, s, currentHeader, c.number - 1);
        current := GetHeader(c.parentHash, c.number - 1);
      }
    }

    /** Rolls the canonical numbering back from `height` to `head`. */
    method DeleteNumbers(height: nat, head: nat, ghost line: seq<Header>)
      requires canonical == Numbering(line) && |line| == height + 1
      modifies this`canonical
      ensures canonical == Numbering(UpTo(line, head))
    {
      var i := height;
      while i > head
        invariant canonical == map n: nat | n < |line| && (n <= head || n <= i) :: Digest(line[n])
      {
        canonical := canonical - {i};
        i := i - 1;
      }
    }

    /** Rewinds to `head`: exactly the numbers 0 to `head` stay assigned, the head is the old line's
        header there, and all ancestors of what remains are stored if and only if no stored header
        off the line has its parent among those deleted. */
    method SetHead(head: nat)
      requires Valid()
      modifies this
      ensures Sound()
      ensures var line := Branch(genesisHeader, old(currentHeader));
              && Branch(genesisHeader, currentHeader) == UpTo(line, head)
              && headers == old(headers) - Above(line, head)
              && (FC.Closed(genesisHeader, headers) <==>
                  forall h <- headers :: h != genesisHeader ==> h.parentHash.header !in Above(line, head))
    {
      hide Linked, Branch, TotalDifficulty, Above, Numbering, UpTo, FC.Closed, CachesCoherent;
      ghost var g, line := genesisHeader, Branch(genesisHeader, currentHeader);
      UpToBranch(g, Abs(), head);
      RewindClosed(g, Abs(), head);
      var height := currentHeader.number;
      var current := DeleteLine(head);
      DeleteNumbers(height, head, line);
      ResetHead(if current.Some? then current.value else genesisHeader);
    }

    /** Empties the caches and makes `header` the head. */
    method ResetHead(header: Header)
      modifies `headerCache, `tdCache, `currentHeader, `currentHeaderHash, `headHeaderHash
      ensures CachesCoherent() && currentHeader == header && headHeaderHash == currentHeaderHash == Digest(header)
    {
      headerCache, tdCache := {}, map[];
      currentHeader := header;
      currentHeaderHash := Digest(currentHeader);
      headHeaderHash := currentHeaderHash;
    }
  }
}
