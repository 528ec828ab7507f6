/** Eviction of executable transactions when there are too many: the longest lists are cut to one level. */
module Eviction {
  import opened ChainTypes
  import opened SortedTxs
  import opened PoolLists
  import opened PoolSizes

  const MIN_PENDING_PER_ACCOUNT := 16
  const MAX_PENDING_TOTAL := 4096

  /** Keeps the `k` lowest nonces. */
  method CapTo(items: Items, k: nat) returns (kept: Items)
    ensures kept == Lowest(items, k)
  {
    hide Lowest;
    kept := items;
    LowestAll(items, |items|);
    while |kept| > k
      invariant |kept| <= |items| && kept == Lowest(items, |kept|)
      invariant |items| <= k ==> kept == items
      invariant k < |items| ==> k <= |kept|
      decreases |kept|
    {
      GreatestExists(kept.Keys);
      var n :| n in kept && forall x <- kept :: x <= n;
      LowestStep(items, |kept|, n);
      assert (kept - {n}).Keys == kept.Keys - {n};
      kept := kept - {n};
    }
    if |items| <= k {
      LowestAll(items, k);
    }
  }

  /** `cur` is `pending` with the lists of `cut` shortened to the level. */
  ghost predicate Levelled(pending: Lists, cur: Lists, cut: seq<Address>, level: nat) {
    && cur.Keys == pending.Keys
    && (forall a <- cut :: a in pending && cur[a] == Lowest(pending[a], level))
    && (forall a <- pending :: a !in cut ==> cur[a] == pending[a])
  }

  /** A round in progress: the first `i` offenders are at the next level. */
  ghost predicate Lowering(pending: Lists, cur: Lists, offenders: seq<Address>, i: nat, level: nat)
    requires 0 < level
  {
    && cur.Keys == pending.Keys
    && (forall k | 0 <= k < |offenders| ::
          && offenders[k] in pending
          && cur[offenders[k]] == Lowest(pending[offenders[k]], if k < i then level - 1 else level))
    && forall a <- pending :: a !in offenders ==> cur[a] == pending[a]
  }

  lemma LoweringStep(pending: Lists, cur: Lists, offenders: seq<Address>, i: nat, level: nat)
    requires 0 < level && i < |offenders| && Distinct(offenders) && Lowering(pending, cur, offenders, i, level)
    requires level <= |pending[offenders[i]]|
    ensures var a := offenders[i];
            |cur[a]| == level && Lowering(pending, cur[a := Lowest(cur[a], level - 1)], offenders, i + 1, level)
  {
    hide Lowest;
    LowestTwice(pending[offenders[i]], level, level - 1);
  }

  /** One round: every offender loses its highest nonce. */
  method Round(cur: Lists, offenders: seq<Address>, total: nat, ghost pending: Lists, ghost level: nat)
    returns (cur': Lists, total': nat)
    requires Distinct(offenders) && Levelled(pending, cur, offenders, level) && total == Size(cur) && 0 < level
    requires forall a <- offenders :: level <= |pending[a]|
    ensures Levelled(pending, cur', offenders, level - 1) && total' == Size(cur')
  {
    hide Lowest, Size, Distinct;
    cur', total' := cur, total;
    assert Lowering(pending, cur', offenders, 0, level);
    for i := 0 to |offenders|
      invariant total' == Size(cur') && Lowering(pending, cur', offenders, i, level)
    {
      LoweringStep(pending, cur', offenders, i, level);
      hide Lowering;
      var a := offenders[i];
      var list := CapTo(cur'[a], |cur'[a]| - 1);
      SizeUpdate(cur', a, list);
      cur', total' := cur'[a := list], total' - 1;
    }
  }

  /** The accounts that may be cut: they have more than the guaranteed slots and a transaction that is not local, and every
      account over its share is among them if none of its transactions is local. */
  ghost predicate Spammers(pending: Lists, local: set<Tx>, spammers: set<Address>) {
    && spammers <= pending.Keys
    && (forall a <- spammers :: |pending[a]| > MIN_PENDING_PER_ACCOUNT && exists n <- pending[a] :: pending[a][n] !in local)
    && forall a <- pending :: |pending[a]| > MIN_PENDING_PER_ACCOUNT && (forall n <- pending[a] :: pending[a][n] !in local)
                              ==> a in spammers
  }

  /** The accounts that may be cut: more than the guaranteed slots, and not local judging by one of their
      transactions, whichever the iteration meets first. */
  method Candidates(pending: Lists, local: set<Tx>) returns (spammers: set<Address>)
    requires NonEmpty(pending)
    ensures Spammers(pending, local, spammers)
  {
    spammers := {};
    var rest := pending.Keys;
    while rest != {}
      invariant rest <= pending.Keys && spammers <= pending.Keys - rest
      invariant forall a <- spammers ::
                  |pending[a]| > MIN_PENDING_PER_ACCOUNT && exists n <- pending[a] :: pending[a][n] !in local
      invariant forall a <- pending.Keys - rest ::
                  |pending[a]| > MIN_PENDING_PER_ACCOUNT && (forall n <- pending[a] :: pending[a][n] !in local) ==> a in spammers
      decreases rest
    {
      var a :| a in rest;
      rest := rest - {a};
      if |pending[a]| > MIN_PENDING_PER_ACCOUNT {
        var n :| n in pending[a];
        if pending[a][n] !in local {
          spammers := spammers + {a};
        }
      }
    }
  }

  /** One level higher there would be too many. */
  ghost predicate Needed(pending: Lists, candidates: set<Address>, level: nat) {
    Size(Cut(pending, candidates, level + 1)) > MAX_PENDING_TOTAL
  }

  /** Cutting only the popped lists is cutting all candidates, since the waiting ones are short enough. */
  lemma LevelledForm(pending: Lists, cur: Lists, popped: seq<Address>, waiting: set<Address>, level: nat)
    requires Levelled(pending, cur, popped, level) && waiting <= pending.Keys
    requires forall a <- waiting :: |pending[a]| <= level
    ensures cur == Cut(pending, waiting + (set a | a in popped), level)
  {
    hide Lowest;
    forall a <- waiting ensures Lowest(pending[a], level) == pending[a] {
      LowestAll(pending[a], level);
    }
  }

  lemma NeededAt(pending: Lists, cur: Lists, popped: seq<Address>, candidates: set<Address>, level: nat)
    requires Levelled(pending, cur, popped, level) && candidates <= pending.Keys && 0 < level
    requires (forall a <- popped :: a in candidates) && Size(cur) > MAX_PENDING_TOTAL
    requires forall a <- candidates | a !in popped :: |pending[a]| <= level
    ensures Needed(pending, candidates, level - 1)
  {
    hide Lowest, Size;
    var waiting := set a | a in candidates && a !in popped;
    LevelledForm(pending, cur, popped, waiting, level);
    assert waiting + (set a | a in popped) == candidates;
  }

  /** Where no candidate reaches the level, nothing is cut. */
  lemma NeededAbove(pending: Lists, candidates: set<Address>, level: nat)
    requires Size(pending) > MAX_PENDING_TOTAL && candidates <= pending.Keys
    requires forall a <- candidates :: |pending[a]| <= level
    ensures Needed(pending, candidates, level)
  {
    hide Lowest, Size;
    forall a <- candidates ensures Lowest(pending[a], level + 1) == pending[a] {
      LowestAll(pending[a], level + 1);
    }
    assert Cut(pending, candidates, level + 1) == pending;
  }

  /** Rounds until the offenders are down to `floor` or the total fits; no round is made without need. */
  method ReduceTo(cur: Lists, offenders: seq<Address>, total: nat, floor: nat, ghost pending: Lists, ghost level: nat,
                  ghost candidates: set<Address>)
    returns (cur': Lists, total': nat, ghost level': nat)
    requires 0 < |offenders| && Distinct(offenders) && Levelled(pending, cur, offenders, level) && total == Size(cur)
    requires floor <= level && forall a <- offenders :: level <= |pending[a]| && a in candidates
    requires candidates <= pending.Keys && Needed(pending, candidates, level)
    requires forall a <- candidates | a !in offenders :: |pending[a]| <= floor
    ensures Levelled(pending, cur', offenders, level') && total' == Size(cur')
    ensures floor <= level' <= level && Needed(pending, candidates, level')
    ensures total' <= MAX_PENDING_TOTAL || level' == floor
  {
    hide Lowest, Size, Needed;
    cur', total', level' := cur, total, level;
    while total' > MAX_PENDING_TOTAL && |cur'[offenders[|offenders| - 1]]| > floor
      invariant Levelled(pending, cur', offenders, level') && total' == Size(cur') && floor <= level' <= level
      invariant Needed(pending, candidates, level')
      decreases level'
    {
      NeededAt(pending, cur', offenders, candidates, level');
      cur', total' := Round(cur', offenders, total', pending, level');
      level' := level' - 1;
    }
  }

  /** Where the popping of offenders stands: `popped` are levelled, the others still untouched and no longer
      than the level, and while the total is too large no popped list is shorter than the level. */
  ghost predicate Popping(pending: Lists, cur: Lists, popped: seq<Address>, waiting: set<Address>, total: nat,
                          level: nat) {
    && Distinct(popped) && Levelled(pending, cur, popped, level) && waiting <= pending.Keys && total == Size(cur)
    && MIN_PENDING_PER_ACCOUNT <= level
    && (forall a <- waiting :: a !in popped && MIN_PENDING_PER_ACCOUNT < |pending[a]| <= level)
    && (total > MAX_PENDING_TOTAL ==> forall a <- popped :: level <= |pending[a]|)
    && Needed(pending, waiting + (set a | a in popped), level)
  }

  /** The next offender joins: the lists popped before it are cut towards its length. */
  method PopOffender(cur: Lists, popped: seq<Address>, waiting: set<Address>, total: nat, offender: Address,
                     ghost pending: Lists, ghost level: nat)
    returns (cur': Lists, total': nat, ghost level': nat)
    requires Popping(pending, cur, popped, waiting, total, level) && total > MAX_PENDING_TOTAL
    requires offender in waiting && forall a <- waiting :: |pending[a]| <= |pending[offender]|
    ensures Popping(pending, cur', popped + [offender], waiting - {offender}, total', level')
  {
    hide Lowest, Size, Needed;
    cur', total' := cur, total;
    ghost var candidates := waiting + (set a | a in popped);
    assert waiting - {offender} + (set a | a in popped + [offender]) == candidates;
    if |popped| > 0 {
      var threshold := |cur[offender]|;
      cur', total', level' := ReduceTo(cur, popped, total, threshold, pending, level, candidates);
    } else {
      level' := |pending[offender]|;
      assert cur == pending;
      NeededAbove(pending, candidates, level');
    }
    LowestAll(pending[offender], level');
  }

  lemma PoppingStarts(pending: Lists, spammers: set<Address>, total: nat)
    requires spammers <= pending.Keys && total == Size(pending) > MAX_PENDING_TOTAL
    requires forall a <- spammers :: |pending[a]| > MIN_PENDING_PER_ACCOUNT
    ensures Popping(pending, pending, [], spammers, total, total + MIN_PENDING_PER_ACCOUNT)
  {
    hide Size, Needed, Lowest;
    forall a <- spammers ensures |pending[a]| <= total {
      ListWithinSize(pending, a);
    }
    NeededAbove(pending, spammers, total + MIN_PENDING_PER_ACCOUNT);
    var none: seq<Address> := [];
    assert spammers + (set a | a in none) == spammers;
  }

  /** Pops offenders, longest first, until the total fits or none is left. */
  method PopAll(pending: Lists, spammers: set<Address>, total: nat)
    returns (cur: Lists, popped: seq<Address>, total': nat, ghost waiting: set<Address>, ghost level: nat)
    requires spammers <= pending.Keys && total == Size(pending) > MAX_PENDING_TOTAL
    requires forall a <- spammers :: |pending[a]| > MIN_PENDING_PER_ACCOUNT
    ensures Popping(pending, cur, popped, waiting, total', level)
    ensures spammers == waiting + set a | a in popped
    ensures total' <= MAX_PENDING_TOTAL || waiting == {}
  {
    hide Size, Lowest, Levelled, Distinct, Needed;
    PoppingStarts(pending, spammers, total);
    cur, popped, total', level := pending, [], total, total + MIN_PENDING_PER_ACCOUNT;
    var rest := spammers;
    while total' > MAX_PENDING_TOTAL && rest != {}
      invariant Popping(pending, cur, popped, rest, total', level)
      invariant spammers == rest + set a | a in popped
      decreases rest
    {
      LongestExists(pending, rest);
      var offender :| offender in rest && forall b <- rest :: |pending[b]| <= |pending[offender]|;
      cur, total', level := PopOffender(cur, popped, rest, total', offender, pending, level);
      popped := popped + [offender];
      rest := rest - {offender};
    }
    waiting := rest;
  }

  /** Exact water filling.  There is one level of at least the guaranteed slots: every candidate ends with its lowest
      nonces up to that level, no other account is touched, and either the total fits or the level is the guaranteed
      number.  The level is the highest such: with one more there would be too many.  Nothing happens while the total fits. */
  ghost predicate Evicted(pending: Lists, local: set<Tx>, after: Lists, candidates: set<Address>, level: nat) {
    && MIN_PENDING_PER_ACCOUNT <= level && after == Cut(pending, candidates, level)
    && (Size(after) <= MAX_PENDING_TOTAL || level == MIN_PENDING_PER_ACCOUNT)
    && if Size(pending) <= MAX_PENDING_TOTAL then candidates == {}
       else Spammers(pending, local, candidates) && Needed(pending, candidates, level)
  }

  /** No account loses its guaranteed slots, and one whose transactions are all local loses nothing. */
  lemma EvictedGuarantee(pending: Lists, local: set<Tx>, after: Lists, candidates: set<Address>, level: nat, a: Address)
    requires Evicted(pending, local, after, candidates, level)
    ensures Sub(ListOf(after, a), ListOf(pending, a))
    ensures Sub(Lowest(ListOf(pending, a), MIN_PENDING_PER_ACCOUNT), ListOf(after, a))
    ensures (forall n <- ListOf(pending, a) :: ListOf(pending, a)[n] in local) ==> ListOf(after, a) == ListOf(pending, a)
    ensures Size(pending) <= MAX_PENDING_TOTAL ==> after == pending
  {
    hide Lowest, Size;
    var list := ListOf(pending, a);
    LowestSub(list, level);
    LowestSub(list, MIN_PENDING_PER_ACCOUNT);
    LowestTwice(list, level, MIN_PENDING_PER_ACCOUNT);
    LowestSub(Lowest(list, level), MIN_PENDING_PER_ACCOUNT);
  }

  /** A higher level leaves more. */
  lemma CutGrows(pending: Lists, candidates: set<Address>, low: nat, high: nat)
    requires low <= high
    ensures Size(Cut(pending, candidates, low)) <= Size(Cut(pending, candidates, high))
  {
    hide Lowest, Size;
    var l, l' := Cut(pending, candidates, low), Cut(pending, candidates, high);
    forall a, n | n in ListOf(l, a) ensures n in ListOf(l', a) {
      LowestTwice(pending[a], high, low);
      LowestSub(Lowest(pending[a], high), low);
    }
    SizeSub(l, l');
  }

  /** The level is the only one: the candidates determine the outcome. */
  lemma EvictedUnique(pending: Lists, local: set<Tx>, after: Lists, after': Lists, candidates: set<Address>, level: nat,
                      level': nat)
    requires Evicted(pending, local, after, candidates, level) && Evicted(pending, local, after', candidates, level')
    ensures after == after'
  {
    hide Lowest, Size, Spammers, Cut;
    EvictedGuarantee(pending, local, after, candidates, level, 0);
    EvictedGuarantee(pending, local, after', candidates, level', 0);
    if level < level' {
      CutGrows(pending, candidates, level + 1, level');
    } else if level' < level {
      CutGrows(pending, candidates, level' + 1, level);
    }
  }

  /** The total fits, or every account over its share has a local transaction. */
  ghost predicate Limited(pending: Lists, local: set<Tx>) {
    || Size(pending) <= MAX_PENDING_TOTAL
    || forall a <- pending | |pending[a]| > MIN_PENDING_PER_ACCOUNT :: exists n <- pending[a] :: pending[a][n] in local
  }

  lemma EvictedLimited(pending: Lists, local: set<Tx>, after: Lists, candidates: set<Address>, level: nat)
    requires Evicted(pending, local, after, candidates, level)
    ensures Limited(after, local)
  {
    hide Lowest, Size;
    if Size(pending) <= MAX_PENDING_TOTAL {
      assert after == pending;
    } else {
      forall a <- after | level == MIN_PENDING_PER_ACCOUNT < |after[a]| ensures exists n <- after[a] :: after[a][n] in local {
        assert a !in candidates && after[a] == pending[a];
      }
    }
  }

  /** Cuts the executable lists when there are too many transactions. */
  method Evict(pending: Lists, local: set<Tx>)
    returns (after: Lists, ghost candidates: set<Address>, ghost level: nat)
    requires NonEmpty(pending)
    ensures Evicted(pending, local, after, candidates, level)
    ensures Limited(after, local) && (Size(pending) <= MAX_PENDING_TOTAL ==> after == pending)
    ensures after.Keys == pending.Keys
    ensures forall a <- pending :: |after[a]| < |pending[a]| ==> |after[a]| >= MIN_PENDING_PER_ACCOUNT
  {
    hide Lowest, Size, Distinct, Limited, Needed;
    var total: nat := Total(pending);
    after, candidates, level := pending, {}, MIN_PENDING_PER_ACCOUNT;
    if total <= MAX_PENDING_TOTAL {
      EvictedLimited(pending, local, after, candidates, level);
      return;
    }
    var spammers := Candidates(pending, local);
    candidates := spammers;
    var offenders;
    ghost var waiting;
    after, offenders, total, waiting, level := PopAll(pending, spammers, total);
    if total > MAX_PENDING_TOTAL && |offenders| > 0 {
      after, total, level := ReduceTo(after, offenders, total, MIN_PENDING_PER_ACCOUNT, pending, level,
                                      candidates);
    } else if |offenders| == 0 {
      level := MIN_PENDING_PER_ACCOUNT;
      assert after == pending && candidates == {};
      NeededAbove(pending, candidates, level);
    }
    LevelledForm(pending, after, offenders, waiting, level);
    EvictedLimited(pending, local, after, candidates, level);
  }
}
