/** Removing waiting transactions of one account, one after the other, and what that leaves in its lists. */
module Overflow {
  import opened ChainTypes
  import opened WorldState
  import opened SortedTxs
  import opened TxLists
  import opened PoolLists
  import opened PoolSizes
  import opened Eviction
  import opened Promotion

  /** The two lists of an account and the transactions known to the pool. */
  datatype Book = Book(p: Items, q: Items, known: set<Tx>) {
    ghost predicate Valid() {
      && Keyed(p) && Keyed(q) && (forall n <- q :: q[n] in known) && forall n | n in p && n in q :: p[n] != q[n]
    }
  }

  /** What `TxPool.RemoveTx` makes of an account. */
  ghost function Removed(b: Book, tx: Tx): Book {
    if tx !in b.known then b
    else
      var demoted := Demoted(b.p, tx.nonce);
      Book(Without(b.p, true, tx.nonce), Merge(b.q, demoted) - {tx.nonce}, b.known - {tx} - Outbid(b.q, demoted))
  }

  ghost function RemovedAll(b: Book, txs: seq<Tx>): Book {
    if txs == [] then b else Removed(RemovedAll(b, txs[..|txs| - 1]), txs[|txs| - 1])
  }

  ghost function TxsAt(q: Items, r: set<nat>): set<Tx> {
    set n | n in r && n in q :: q[n]
  }

  function Below(items: Items, nonce: nat): Items {
    map n | n in items && n < nonce :: items[n]
  }

  /** The nonces of `r` that are in both lists. */
  ghost function Clashes(b: Book, r: set<nat>): set<nat> {
    set n | n in r && n in b.p && n in b.q
  }

  /** The lists while the lowest nonces `r` of the queue have been removed, from the bottom up. */
  ghost function FromBottom(b: Book, r: set<nat>): Book {
    var clashes := Clashes(b, r);
    if clashes == {} then Book(b.p, b.q - r, b.known - TxsAt(b.q, r))
    else
      var c := Least(clashes);
      var demoted := Demoted(b.p, c);
      Book(Below(b.p, c),
           map n | n in Merge(b.q, demoted) && (n in r ==> Wins(b.q, demoted, n)) :: Merge(b.q, demoted)[n],
           b.known - TxsAt(b.q, r) - Outbid(b.q, demoted))
  }

  lemma WithoutBelow(p: Items, n: nat)
    ensures Without(p, true, n) == if n in p then Below(p, n) else p
    ensures Demoted(p, n) == if n in p && Below(p, n) != map[] then Above(p, n) else map[]
  {
  }

  /** The nonces `r` are the ones of the queue below `n`. */
  ghost predicate Lower(q: Items, r: set<nat>, n: nat) {
    n in q && forall k: nat :: k in r <==> k in q && k < n
  }

  lemma BottomStep(b: Book, r: set<nat>, n: nat)
    requires b.Valid() && Lower(b.q, r, n)
    ensures Removed(FromBottom(b, r), b.q[n]) == FromBottom(b, r + {n})
  {
    hide Merge, Wins, Outbid, Without, Demoted;
    if Clashes(b, r) != {} {
      BottomLater(b, r, n);
    } else if n in b.p {
      BottomFirst(b, r, n);
    } else {
      BottomFree(b, r, n);
    }
  }

  lemma TxsAtStep(b: Book, r: set<nat>, n: nat)
    requires b.Valid() && n in b.q && n !in r
    ensures TxsAt(b.q, r + {n}) == TxsAt(b.q, r) + {b.q[n]} && b.q[n] in b.known - TxsAt(b.q, r)
  {
  }

  /** Before any clash only the queue changes. */
  lemma BottomFree(b: Book, r: set<nat>, n: nat)
    requires b.Valid() && Lower(b.q, r, n) && Clashes(b, r) == {} && n !in b.p
    ensures Removed(FromBottom(b, r), b.q[n]) == FromBottom(b, r + {n})
  {
    TxsAtStep(b, r, n);
    WithoutBelow(b.p, n);
    MergeNone(b.q - r);
    assert Clashes(b, r + {n}) == {};
    assert b.q - r - {n} == b.q - (r + {n});
  }

  /** Nonces nobody is added at do not matter to a merge. */
  lemma MergeRest(q: Items, r: set<nat>, added: Items)
    requires r !! added.Keys
    ensures Outbid(q - r, added) == Outbid(q, added) && Merge(q - r, added) == Merge(q, added) - r
    ensures forall n <- r :: !Wins(q, added, n)
  {
    forall n | n in q && n !in r ensures Wins(q - r, added, n) == Wins(q, added, n) {
    }
    assert Outbid(q - r, added) <= Outbid(q, added) && Outbid(q, added) <= Outbid(q - r, added);
    assert Merge(q - r, added).Keys == (Merge(q, added) - r).Keys;
  }

  /** At the first clash the executable list is cut and what was above goes to the queue. */
  lemma BottomFirst(b: Book, r: set<nat>, n: nat)
    requires b.Valid() && Lower(b.q, r, n) && Clashes(b, r) == {} && n in b.p
    ensures Removed(FromBottom(b, r), b.q[n]) == FromBottom(b, r + {n})
  {
    TxsAtStep(b, r, n);
    WithoutBelow(b.p, n);
    assert Clashes(b, r + {n}) == {n};
    assert Least({n}) == n;
    var demoted := Demoted(b.p, n);
    MergeRest(b.q, r, demoted);
    MergeRest(b.q, r + {n}, demoted);
    hide Merge, Outbid, Wins, Demoted, Without, Least;
    assert Removed(FromBottom(b, r), b.q[n]).q == FromBottom(b, r + {n}).q;
  }

  /** After it the executable list has nothing left to clash; a transaction that was outbid is gone already. */
  lemma BottomLater(b: Book, r: set<nat>, n: nat)
    requires b.Valid() && Lower(b.q, r, n) && Clashes(b, r) != {}
    ensures Removed(FromBottom(b, r), b.q[n]) == FromBottom(b, r + {n})
  {
    TxsAtStep(b, r, n);
    var c := Least(Clashes(b, r));
    assert Least(Clashes(b, r + {n})) == c by {
      assert c in Clashes(b, r + {n});
      assert forall k <- Clashes(b, r + {n}) :: k in Clashes(b, r) || k == n;
    }
    var demoted, half := Demoted(b.p, c), FromBottom(b, r);
    WithoutBelow(half.p, n);
    MergeNone(half.q);
    OutbidAt(b, demoted, n);
    hide Merge, Outbid, Wins, Demoted, Without, Least;
    assert Removed(half, b.q[n]).q == FromBottom(b, r + {n}).q;
  }

  lemma OutbidAt(b: Book, added: Items, n: nat)
    requires b.Valid() && n in b.q
    ensures b.q[n] in Outbid(b.q, added) <==> Wins(b.q, added, n)
    ensures n in Merge(b.q, added)
  {
    if b.q[n] in Outbid(b.q, added) {
      OutbidNonces(b.q, added, b.q[n]);
    }
  }

  /** An executable transaction that ends up in the queue because a nonce below it, with something below it in turn,
      is among the clashing ones of `r`. */
  ghost predicate IsStranded(b: Book, r: set<nat>, m: nat) {
    m in b.p && m !in b.q && exists n <- Clashes(b, r) :: n < m && Below(b.p, n) != map[]
  }

  ghost function Stranded(b: Book, r: set<nat>): Items {
    map m | m in b.p && IsStranded(b, r, m) :: b.p[m]
  }

  /** What is left of the executable list when the clashing ones of `r` have been removed. */
  ghost function Uncut(b: Book, r: set<nat>): Items {
    if Clashes(b, r) == {} then b.p else Below(b.p, Least(Clashes(b, r)))
  }

  /** The lists while the highest nonces `r` of the queue have been removed, from the top down. */
  ghost function FromTop(b: Book, r: set<nat>): Book {
    Book(Uncut(b, r), (b.q - r) + Stranded(b, r), b.known - TxsAt(b.q, r))
  }

  ghost predicate Upper(q: Items, r: set<nat>, n: nat) {
    n in q && forall k: nat :: k in r <==> k in q && k > n
  }

  lemma MapStep(q: Items, r: set<nat>, n: nat, s: Items, d: Items)
    requires n in q && s.Keys !! q.Keys && d.Keys !! q.Keys
    ensures (q - r) + s + d - {n} == (q - (r + {n})) + (s + d)
  {
  }

  lemma StrandedNew(b: Book, r: set<nat>)
    ensures Stranded(b, r).Keys !! b.q.Keys
  {
  }

  lemma UncutStep(b: Book, r: set<nat>, n: nat)
    requires Upper(b.q, r, n)
    ensures if n in b.p then n in Uncut(b, r) && Below(Uncut(b, r), n) == Uncut(b, r + {n}) == Below(b.p, n)
            else n !in Uncut(b, r) && Uncut(b, r + {n}) == Uncut(b, r) && Clashes(b, r + {n}) == Clashes(b, r)
  {
    if n in b.p {
      assert Clashes(b, r + {n}) == Clashes(b, r) + {n};
      assert Least(Clashes(b, r + {n})) == n;
    } else {
      assert Clashes(b, r + {n}) == Clashes(b, r);
    }
  }

  /** A clash strands what lies between it and the clash before, if something is below it. */
  lemma StrandedAt(b: Book, r: set<nat>, n: nat, m: nat)
    requires Upper(b.q, r, n) && n in b.p && m in b.p && m !in b.q
    ensures IsStranded(b, r + {n}, m) <==> IsStranded(b, r, m) || (n < m && m in Uncut(b, r) && Below(b.p, n) != map[])
  {
    assert Clashes(b, r + {n}) == Clashes(b, r) + {n};
    if n < m && Below(b.p, n) != map[] && Clashes(b, r) != {} {
      var c := Least(Clashes(b, r));
      assert n in Below(b.p, c);
    }
  }

  /** Lists taken from one list are the same when their nonces are. */
  lemma Together(p: Items, s: Items, d: Items, s': Items)
    requires Sub(s, p) && Sub(d, p) && Sub(s', p) && s'.Keys == s.Keys + d.Keys
    ensures s' == s + d
  {
  }

  lemma DemotedAt(b: Book, r: set<nat>, n: nat)
    requires Upper(b.q, r, n) && n in b.p
    ensures var demoted := Demoted(Uncut(b, r), n);
            Sub(demoted, b.p) && forall m :: m in demoted <==> n < m && m in Uncut(b, r) && Below(b.p, n) != map[]
  {
    UncutStep(b, r, n);
    WithoutBelow(Uncut(b, r), n);
  }

  lemma StrandedStep(b: Book, r: set<nat>, n: nat)
    requires Upper(b.q, r, n) && n in b.p
    ensures var demoted := Demoted(Uncut(b, r), n);
            Stranded(b, r + {n}) == Stranded(b, r) + demoted && demoted.Keys !! b.q.Keys + Stranded(b, r).Keys
  {
    hide IsStranded, Demoted, Uncut, Clashes, Below;
    var demoted := Demoted(Uncut(b, r), n);
    DemotedAt(b, r, n);
    UncutApart(b, r, n);
    assert demoted.Keys !! b.q.Keys + Stranded(b, r).Keys;
    StrandedNew(b, r);
    StrandedNew(b, r + {n});
    forall m ensures m in Stranded(b, r + {n}) <==> m in Stranded(b, r) || m in demoted {
      if m in b.p && m !in b.q {
        StrandedAt(b, r, n, m);
      }
    }
    Together(b.p, Stranded(b, r), demoted, Stranded(b, r + {n}));
  }

  /** Above `n` what is left of the executable list is neither in the queue nor stranded. */
  lemma UncutApart(b: Book, r: set<nat>, n: nat)
    requires Upper(b.q, r, n)
    ensures forall m <- Uncut(b, r) :: m in b.p && Uncut(b, r)[m] == b.p[m] && (n < m ==> m !in b.q && !IsStranded(b, r, m))
  {
    if Clashes(b, r) == {} {
      forall m <- b.p | n < m ensures m !in b.q {
        assert m in b.q ==> m in Clashes(b, r);
      }
    } else {
      var c := Least(Clashes(b, r));
      forall m <- Below(b.p, c) | n < m ensures m !in b.q {
        assert m in b.q ==> m in Clashes(b, r);
      }
    }
  }

  lemma TopStep(b: Book, r: set<nat>, n: nat)
    requires b.Valid() && Upper(b.q, r, n)
    ensures Removed(FromTop(b, r), b.q[n]) == FromTop(b, r + {n})
  {
    TxsAtStep(b, r, n);
    UncutStep(b, r, n);
    WithoutBelow(Uncut(b, r), n);
    StrandedNew(b, r);
    var half, demoted := FromTop(b, r), Demoted(Uncut(b, r), n);
    if n in b.p {
      StrandedStep(b, r, n);
    } else {
      StrandedSame(b, r, n);
    }
    hide IsStranded, Stranded, Uncut, Demoted, Without, Clashes;
    MergeApart(half.q, demoted);
    MapStep(b.q, r, n, Stranded(b, r), demoted);
  }

  lemma StrandedSame(b: Book, r: set<nat>, n: nat)
    requires Upper(b.q, r, n) && n !in b.p
    ensures Stranded(b, r + {n}) == Stranded(b, r) + Demoted(Uncut(b, r), n) && Demoted(Uncut(b, r), n) == map[]
  {
    UncutStep(b, r, n);
    WithoutBelow(Uncut(b, r), n);
  }

  /** Merging lists without a common nonce. */
  lemma MergeApart(q: Items, added: Items)
    requires q.Keys !! added.Keys
    ensures Merge(q, added) == q + added && Outbid(q, added) == {}
  {
    assert Merge(q, added).Keys == (q + added).Keys;
  }

  lemma RemovedLast(b: Book, txs: seq<Tx>, k: nat)
    requires k < |txs|
    ensures RemovedAll(b, txs[..k + 1]) == Removed(RemovedAll(b, txs[..k]), txs[k])
  {
    assert txs[..k + 1][..k] == txs[..k];
  }

  /** In the listing of a queue a transaction comes after the ones with lower nonces. */
  lemma ListedLower(q: Items, k: nat)
    requires Keyed(q) && k < |q|
    ensures Member(q, Sorted(q)[k]) && Lower(q, NonceSet(Sorted(q)[..k]), Sorted(q)[k].nonce)
    ensures NonceSet(Sorted(q)[..k + 1]) == NonceSet(Sorted(q)[..k]) + {Sorted(q)[k].nonce}
  {
    hide Sorted;
    SortedListing(q);
    NonceSetStep(Sorted(q), k);
    var txs, r := Sorted(q), NonceSet(Sorted(q)[..k]);
    assert Member(q, txs[k]);
    forall n: nat ensures n in r <==> n in q && n < txs[k].nonce {
      ListedAt(q, k, n);
    }
  }

  lemma ListedAt(q: Items, k: nat, n: nat)
    requires Keyed(q) && k < |q|
    ensures n in NonceSet(Sorted(q)[..k]) <==> n in q && n < Sorted(q)[k].nonce
  {
    hide Sorted;
    var txs := Sorted(q);
    if n in NonceSet(txs[..k]) {
      var i :| 0 <= i < k && txs[i].nonce == n;
      SortedIncreases(q, i, k);
      SortedMembers(q, txs[i]);
    }
    if n in q && n < txs[k].nonce {
      SortedMembers(q, q[n]);
      var i :| 0 <= i < |txs| && txs[i] == q[n];
      if k < i {
        SortedIncreases(q, k, i);
      }
      assert txs[..k][i] == q[n];
    }
  }

  /** Removing a whole queue. */
  lemma {:induction false} RemovedUp(b: Book, k: nat)
    requires b.Valid() && k <= |b.q|
    ensures RemovedAll(b, Sorted(b.q)[..k]) == FromBottom(b, NonceSet(Sorted(b.q)[..k]))
  {
    hide Sorted, FromBottom, Removed;
    if k == 0 {
      assert FromBottom(b, {}) == b by { BottomNone(b); }
      NonceSetNone();
    } else {
      RemovedUp(b, k - 1);
      ListedLower(b.q, k - 1);
      RemovedLast(b, Sorted(b.q), k - 1);
      BottomStep(b, NonceSet(Sorted(b.q)[..k - 1]), Sorted(b.q)[k - 1].nonce);
    }
  }

  lemma BottomNone(b: Book)
    ensures FromBottom(b, {}) == b && FromTop(b, {}) == b
  {
    assert Clashes(b, {}) == {};
    assert b.q - {} == b.q;
    assert TxsAt(b.q, {}) == {};
  }

  lemma TailStep(txs: seq<Tx>, j: nat)
    requires j < |txs|
    ensures Tail(txs, j + 1)[..j] == Tail(txs, j) && Tail(txs, j + 1)[j] == txs[|txs| - 1 - j]
    ensures NonceSet(Tail(txs, j + 1)) == NonceSet(Tail(txs, j)) + {txs[|txs| - 1 - j].nonce}
  {
    assert Tail(txs, j + 1) == Tail(txs, j) + [txs[|txs| - 1 - j]];
  }

  /** From the end of the listing a transaction comes after the ones with higher nonces. */
  lemma ListedUpper(q: Items, j: nat)
    requires Keyed(q) && j < |q|
    ensures var tx := Sorted(q)[|q| - 1 - j]; Member(q, tx) && Upper(q, NonceSet(Tail(Sorted(q), j)), tx.nonce)
  {
    hide Sorted;
    var txs, r, last := Sorted(q), NonceSet(Tail(Sorted(q), j)), |q| - 1 - j;
    SortedMembers(q, txs[last]);
    forall n: nat ensures n in r <==> n in q && n > txs[last].nonce {
      if n in r {
        var i :| 0 <= i < j && Tail(txs, j)[i].nonce == n;
        SortedIncreases(q, last, |q| - 1 - i);
        SortedMembers(q, txs[|q| - 1 - i]);
      }
      if n in q && n > txs[last].nonce {
        SortedMembers(q, q[n]);
        var i :| 0 <= i < |txs| && txs[i] == q[n];
        if i < last {
          SortedIncreases(q, i, last);
        }
        assert Tail(txs, j)[|q| - 1 - i] == q[n];
      }
    }
  }

  /** Removing the highest nonces of a queue. */
  lemma {:induction false} RemovedDown(b: Book, j: nat)
    requires b.Valid() && j <= |b.q|
    ensures RemovedAll(b, Tail(Sorted(b.q), j)) == FromTop(b, NonceSet(Tail(Sorted(b.q), j)))
  {
    hide Sorted, FromTop, Removed, Tail;
    if j == 0 {
      BottomNone(b);
      assert Tail(Sorted(b.q), 0) == [];
      NonceSetNone();
    } else {
      var txs := Sorted(b.q);
      RemovedDown(b, j - 1);
      ListedUpper(b.q, j - 1);
      TailStep(txs, j - 1);
      RemovedLast(b, Tail(txs, j), j - 1);
      assert Tail(txs, j)[..j] == Tail(txs, j);
      TopStep(b, NonceSet(Tail(txs, j - 1)), txs[|txs| - j].nonce);
    }
  }

  /** What the highest nonces leave are the lowest. */
  lemma {:induction false} LowestTail(q: Items, j: nat)
    requires Keyed(q) && j <= |q|
    ensures NonceSet(Tail(Sorted(q), j)) == q.Keys - Lowest(q, |q| - j).Keys
  {
    hide Sorted, Lowest, Tail, NonceSet;
    if j == 0 {
      LowestAll(q, |q|);
      assert Tail(Sorted(q), 0) == [];
      NonceSetNone();
    } else {
      LowestTail(q, j - 1);
      ListedUpper(q, j - 1);
      TailStep(Sorted(q), j - 1);
      LowestSub(q, |q| - j + 1);
      LowestStep(q, |q| - j + 1, Sorted(q)[|q| - j].nonce);
    }
  }

  /** The lists of an account after waiting transactions were dropped to leave room for `room` of them: all from the
      lowest up if there is no room, else from the highest down. */
  ghost function Dropped(p: Items, q: Items, room: nat): (Items, Items) {
    var b := Book(p, q, {});
    var after := if |q| <= room then b
                 else if room == 0 then FromBottom(b, q.Keys) else FromTop(b, q.Keys - Lowest(q, room).Keys);
    (after.p, after.q)
  }

  /** Dropping brings executable transactions into the queue: one that is in both lists is removed from both and
      something executable above it, that nothing waiting stands in the way of, is demoted. */
  ghost predicate Spills(p: Items, q: Items, room: nat) {
    var b := Book(p, q, {});
    && room < |q|
    && if room == 0 then Clashes(b, q.Keys) != {} && Winners(q, Demoted(p, Least(Clashes(b, q.Keys)))) != map[]
       else Stranded(b, q.Keys - Lowest(q, room).Keys) != map[]
  }

  /** Without that exactly the room is used. */
  lemma DroppedSize(p: Items, q: Items, room: nat)
    ensures var left := Dropped(p, q, room).1;
            && |Lowest(q, room)| <= |left| && (|left| == |Lowest(q, room)| <==> !Spills(p, q, room))
            && (!Spills(p, q, room) ==> left == Lowest(q, room))
  {
    hide Lowest, FromTop, FromBottom, Clashes, Winners, Stranded, Demoted;
    if |q| <= room {
      LowestAll(q, room);
    } else if room == 0 {
      WinnersLeft(Book(p, q, {}));
    } else {
      LowestSub(q, room);
      StrandedLeft(Book(p, q, {}), Lowest(q, room));
    }
  }

  lemma StrandedLeft(b: Book, kept: Items)
    requires Sub(kept, b.q)
    ensures var r := b.q.Keys - kept.Keys;
            var left := FromTop(b, r).q;
            && |kept| <= |left| && (|left| == |kept| <==> Stranded(b, r) == map[]) && (Stranded(b, r) == map[] ==> left == kept)
  {
    hide Stranded, Uncut, Sub;
    StrandedNew(b, b.q.Keys - kept.Keys);
    RestKept(b.q, kept);
    JoinedSize(kept, Stranded(b, b.q.Keys - kept.Keys));
  }

  lemma RestKept(q: Items, kept: Items)
    requires Sub(kept, q)
    ensures q - (q.Keys - kept.Keys) == kept && kept.Keys <= q.Keys
  {
  }

  lemma JoinedSize(x: Items, y: Items)
    requires x.Keys !! y.Keys
    ensures |x| <= |x + y| && (|x + y| == |x| <==> y == map[]) && (y == map[] ==> x + y == x)
  {
    assert (x + y).Keys == x.Keys + y.Keys;
    assert y == map[] <==> y.Keys == {};
  }

  lemma WinnersLeft(b: Book)
    ensures FromBottom(b, b.q.Keys).q ==
            if Clashes(b, b.q.Keys) == {} then map[] else Winners(b.q, Demoted(b.p, Least(Clashes(b, b.q.Keys))))
  {
    hide Demoted, Least;
  }

  /** If no nonce is in both lists the executable list stays and the lowest of the queue are kept. */
  lemma DroppedApart(p: Items, q: Items, room: nat)
    requires p.Keys !! q.Keys
    ensures Dropped(p, q, room) == (p, Lowest(q, room)) && !Spills(p, q, room)
  {
    hide Lowest;
    var b := Book(p, q, {});
    forall r ensures Clashes(b, r) == {} && Stranded(b, r) == map[] && Uncut(b, r) == p {
    }
    DroppedSize(p, q, room);
  }

  /** The lists do not depend on what else the pool knows. */
  lemma KnownAside(b: Book, r: set<nat>)
    ensures var bare := Book(b.p, b.q, {});
            && FromBottom(b, r).p == FromBottom(bare, r).p && FromBottom(b, r).q == FromBottom(bare, r).q
            && FromTop(b, r).p == FromTop(bare, r).p && FromTop(b, r).q == FromTop(bare, r).q
  {
    var bare := Book(b.p, b.q, {});
    assert Clashes(b, r) == Clashes(bare, r);
    hide Least;
    assert Stranded(b, r) == Stranded(bare, r);
  }

  /** Removing the transactions one by one as the pool does. */
  lemma RemovedIsDropped(b: Book, drop: nat)
    requires b.Valid() && 0 < drop
    ensures var txs := if |b.q| <= drop then Sorted(b.q) else Tail(Sorted(b.q), drop);
            var after := RemovedAll(b, txs);
            (after.p, after.q) == Dropped(b.p, b.q, if |b.q| <= drop then 0 else |b.q| - drop)
  {
    hide Sorted, Lowest, FromTop, FromBottom, RemovedAll, Tail;
    var txs := Sorted(b.q);
    if b.q == map[] {
      BottomNone(b);
    }
    if |b.q| <= drop {
      RemovedUp(b, |b.q|);
      assert txs[..|b.q|] == txs;
      KnownAside(b, b.q.Keys);
      AllNonces(b.q);
    } else {
      RemovedDown(b, drop);
      LowestTail(b.q, drop);
      KnownAside(b, NonceSet(Tail(txs, drop)));
    }
  }

  lemma AllNonces(q: Items)
    requires Keyed(q)
    ensures NonceSet(Sorted(q)) == q.Keys
  {
    hide Sorted;
    SortedListing(q);
    forall n <- q ensures n in NonceSet(Sorted(q)) {
      SortedMembers(q, q[n]);
    }
  }

  const MAX_QUEUED_IN_TOTAL := 1024

  /** What is left of the limit for an account after the ones before it. */
  ghost function Room(q: Lists, order: seq<Address>, i: nat): nat
    requires i <= |order|
  {
    var before := SumLengths(q, order[..i]);
    if MAX_QUEUED_IN_TOTAL <= before then 0 else MAX_QUEUED_IN_TOTAL - before
  }

  ghost predicate Covers(q: Lists, order: seq<Address>) {
    Distinct(order) && forall a :: a in q <==> a in order
  }

  ghost predicate ByBeat(q: Lists, beats: map<Address, int>, order: seq<Address>) {
    && Covers(q, order)
    && forall i, j | 0 <= i < j < |order| :: Beat(beats, order[i]) <= Beat(beats, order[j])
  }

  /** What the drop makes of account `i` in the order. */
  ghost predicate DroppedAt(s: Snapshot, s': Snapshot, order: seq<Address>, i: nat)
    requires i < |order|
  {
    var a := order[i];
    (ListOf(s'.pending, a), ListOf(s'.queue, a)) ==
    Dropped(ListOf(s.pending, a), ListOf(s.queue, a), Room(s.queue, order, i))
  }

  ghost predicate SpillsAt(s: Snapshot, order: seq<Address>, i: nat)
    requires i < |order|
  {
    Spills(ListOf(s.pending, order[i]), ListOf(s.queue, order[i]), Room(s.queue, order, i))
  }

  /** The limit goes to the accounts in their order: the rest of the waiting transactions is dropped. */
  ghost predicate Overflowed(s: Snapshot, s': Snapshot, order: seq<Address>) {
    && (forall i: nat | i < |order| :: DroppedAt(s, s', order, i))
    && forall a | a !in s.queue :: Untouched(s, s', a) && a !in s'.queue
  }

  ghost predicate Untouched(s: Snapshot, s': Snapshot, a: Address) {
    ListOf(s'.pending, a) == ListOf(s.pending, a) && ListOf(s'.queue, a) == ListOf(s.queue, a)
  }

  /** An account keeps something only if every account before it keeps everything. */
  lemma CutFromLatest(q: Lists, order: seq<Address>, i: nat, j: nat)
    requires i < j < |order| && 0 < Room(q, order, j)
    ensures |ListOf(q, order[i])| <= Room(q, order, i)
  {
    hide SumLengths;
    SumStep(q, order, i);
    SumGrows(q, order, i + 1, j);
  }

  /** The lists while the accounts from `k` on have been dealt with and `drop` transactions are still to be dropped. */
  ghost predicate Dropping(s: Snapshot, t: Snapshot, order: seq<Address>, k: nat, drop: nat) {
    && k <= |order| && drop == Excess(s.queue, order[..k])
    && (forall i: nat | i < k :: Untouched(s, t, order[i]))
    && (forall i: nat | k <= i < |order| :: DroppedAt(s, t, order, i))
    && forall a | a !in s.queue :: Untouched(s, t, a)
  }

  ghost function Excess(q: Lists, order: seq<Address>): nat {
    var sum := SumLengths(q, order);
    if MAX_QUEUED_IN_TOTAL <= sum then sum - MAX_QUEUED_IN_TOTAL else 0
  }

  lemma DroppingStart(s: Snapshot, order: seq<Address>)
    requires Covers(s.queue, order)
    ensures var excess := if MAX_QUEUED_IN_TOTAL <= Size(s.queue) then Size(s.queue) - MAX_QUEUED_IN_TOTAL else 0;
            Dropping(s, s, order, |order|, excess)
  {
    hide SumLengths, Size;
    assert order[..|order|] == order;
    SumIsSize(s.queue, order);
  }

  lemma DroppingStep(s: Snapshot, t: Snapshot, t': Snapshot, order: seq<Address>, k: nat, drop: nat)
    requires Covers(s.queue, order) && Dropping(s, t, order, k + 1, drop) && forall a | a != order[k] :: Untouched(t, t', a)
    requires var a, q := order[k], ListOf(t.queue, order[k]);
             (ListOf(t'.pending, a), ListOf(t'.queue, a)) ==
             Dropped(ListOf(t.pending, a), q, if |q| <= drop then 0 else |q| - drop)
    requires 0 < drop
    ensures var q := ListOf(t.queue, order[k]); Dropping(s, t', order, k, if |q| <= drop then drop - |q| else 0)
  {
    hide Dropped, SumLengths;
    SumStep(s.queue, order, k);
    assert Untouched(s, t, order[k]) && order[k] in order;
    assert DroppedAt(s, t', order, k);
    forall i: nat | i < k ensures Untouched(s, t', order[i]) {
      assert Untouched(s, t, order[i]) && Untouched(t, t', order[i]);
    }
    forall a | a !in s.queue ensures Untouched(s, t', a) {
      assert Untouched(s, t, a) && Untouched(t, t', a);
    }
    forall i: nat | k < i < |order| ensures DroppedAt(s, t', order, i) {
      assert DroppedAt(s, t, order, i) && Untouched(t, t', order[i]);
    }
  }

  /** As long as something is to be dropped there is an account to take from. */
  lemma DroppingSome(s: Snapshot, t: Snapshot, order: seq<Address>, k: nat, drop: nat)
    requires Dropping(s, t, order, k, drop) && 0 < drop && Covers(s.queue, order)
    requires forall a <- s.queue :: ListOf(s.queue, a) != map[]
    ensures 0 < k && ListOf(t.queue, order[k - 1]) != map[]
  {
    hide SumLengths;
    SumNone(s.queue);
    if k != 0 {
      assert Untouched(s, t, order[k - 1]);
    }
  }

  lemma DroppingDone(s: Snapshot, t: Snapshot, order: seq<Address>, k: nat)
    requires Dropping(s, t, order, k, 0) && NonEmpty(t.queue)
    ensures Overflowed(s, t, order)
  {
    hide SumLengths, Lowest, FromBottom, FromTop;
    forall i: nat | i < |order| ensures DroppedAt(s, t, order, i) {
      if i < k {
        assert Untouched(s, t, order[i]);
        SumStep(s.queue, order, i);
        SumGrows(s.queue, order, i + 1, k);
      }
    }
  }

  /** None of the first accounts brings executable transactions into the queue. */
  ghost predicate NoneSpills(s: Snapshot, order: seq<Address>, i: nat)
    requires i <= |order|
  {
    forall k: nat | k < i :: !SpillsAt(s, order, k)
  }

  lemma NoneSpillsStep(s: Snapshot, order: seq<Address>, i: nat)
    requires i <= |order|
    ensures NoneSpills(s, order, i) <==> (0 < i ==> NoneSpills(s, order, i - 1) && !SpillsAt(s, order, i - 1))
  {
    hide SpillsAt;
  }

  /** The first accounts have at least what the limit gives them, and more only if dropping spills. */
  lemma {:induction false} OverflowedPrefix(s: Snapshot, s': Snapshot, order: seq<Address>, i: nat)
    requires i <= |order| && Overflowed(s, s', order)
    ensures var kept := MAX_QUEUED_IN_TOTAL - Room(s.queue, order, i);
            var sum := SumLengths(s'.queue, order[..i]);
            && kept <= sum && (sum == kept <==> NoneSpills(s, order, i))
  {
    hide SumLengths, Dropped, Spills, Lowest;
    NoneSpillsStep(s, order, i);
    hide NoneSpills;
    if i == 0 {
      SumNone(s.queue);
      SumNone(s'.queue);
    } else {
      var a := order[i - 1];
      OverflowedPrefix(s, s', order, i - 1);
      SumStep(s.queue, order, i - 1);
      SumStep(s'.queue, order, i - 1);
      assert DroppedAt(s, s', order, i - 1);
      DroppedSize(ListOf(s.pending, a), ListOf(s.queue, a), Room(s.queue, order, i - 1));
    }
  }

  /** The queue ends at the limit exactly if no drop spills. */
  lemma OverflowedSize(s: Snapshot, s': Snapshot, order: seq<Address>)
    requires Covers(s.queue, order) && Overflowed(s, s', order) && MAX_QUEUED_IN_TOTAL < Size(s.queue)
    ensures MAX_QUEUED_IN_TOTAL <= Size(s'.queue)
    ensures Size(s'.queue) == MAX_QUEUED_IN_TOTAL <==> NoneSpills(s, order, |order|)
  {
    hide SumLengths, Size, Distinct, DroppedAt, SpillsAt;
    assert order[..|order|] == order;
    SumIsSize(s.queue, order);
    SumIsSize(s'.queue, order);
    OverflowedPrefix(s, s', order, |order|);
  }

  /** If no account has a nonce in both lists, the executable lists stay, every account keeps its lowest nonces, and
      the queue ends at the limit. */
  lemma OverflowedApart(s: Snapshot, s': Snapshot, order: seq<Address>)
    requires Covers(s.queue, order) && Overflowed(s, s', order) && MAX_QUEUED_IN_TOTAL < Size(s.queue)
    requires NonEmpty(s.pending) && NonEmpty(s'.pending) && forall a :: Separate(s.pending, s.queue, a)
    ensures s'.pending == s.pending && Size(s'.queue) == MAX_QUEUED_IN_TOTAL
    ensures forall i: nat | i < |order| ::
              ListOf(s'.queue, order[i]) == Lowest(ListOf(s.queue, order[i]), Room(s.queue, order, i))
  {
    hide SumLengths, Size, Distinct, Dropped, Spills, Room, Lowest, NonEmpty;
    forall i: nat | i < |order|
      ensures !SpillsAt(s, order, i) && ListOf(s'.pending, order[i]) == ListOf(s.pending, order[i])
              && ListOf(s'.queue, order[i]) == Lowest(ListOf(s.queue, order[i]), Room(s.queue, order, i))
    {
      assert DroppedAt(s, s', order, i) && Separate(s.pending, s.queue, order[i]);
      DroppedApart(ListOf(s.pending, order[i]), ListOf(s.queue, order[i]), Room(s.queue, order, i));
    }
    OverflowedSize(s, s', order);
    SameLists(s'.pending, s.pending);
  }

  lemma TidyLowest(items: Items, account: Account, limit: nat, k: nat)
    requires Tidy(items, account, limit)
    ensures Tidy(Lowest(items, k), account, limit)
  {
    hide Lowest;
    LowestSub(items, k);
  }

  /** What enforcing the limits goes through: the lists with everything promoted, the executable ones cut after that to
      a level, and the order in which waiting transactions were dropped. */
  datatype Passage = Passage(promoted: Snapshot, evicted: Snapshot, candidates: set<Address>, level: nat,
                             order: seq<Address>)

  ghost predicate Enforced(state: Accounts, local: set<Tx>, now: int, s: Snapshot, r: Passage, s': Snapshot) {
    && (forall a :: Promoted(state, now, s, r.promoted, a)) && r.promoted.queue == WaitingLists(s.queue, state, s.nonces)
    && r.evicted == r.promoted.(pending := r.evicted.pending)
    && Evicted(r.promoted.pending, local, r.evicted.pending, r.candidates, r.level)
    && if Size(r.promoted.queue) <= MAX_QUEUED_IN_TOTAL then s' == r.evicted
       else ByBeat(r.promoted.queue, r.promoted.beats, r.order) && Overflowed(r.evicted, s', r.order)
  }

  /** What waits after promotion is within the limit, or never at an executable nonce. */
  ghost predicate Unclashed(state: Accounts, s: Snapshot) {
    var waiting := WaitingLists(s.queue, state, s.nonces);
    Size(waiting) <= MAX_QUEUED_IN_TOTAL || forall a :: Separate(s.pending, waiting, a)
  }

  /** The queue ends within its limit exactly if it was there after promotion or no drop spills. */
  lemma EnforcedSize(state: Accounts, local: set<Tx>, now: int, s: Snapshot, r: Passage, s': Snapshot)
    requires Enforced(state, local, now, s, r, s')
    ensures Size(s'.queue) <= MAX_QUEUED_IN_TOTAL <==>
            Size(r.promoted.queue) <= MAX_QUEUED_IN_TOTAL || NoneSpills(r.evicted, r.order, |r.order|)
  {
    hide Size, Promoted, WaitingLists, Overflowed, NoneSpills, Covers, Evicted;
    if Size(r.promoted.queue) > MAX_QUEUED_IN_TOTAL {
      OverflowedSize(r.evicted, s', r.order);
    }
  }

  /** Promotion and cutting bring no nonce into both lists. */
  lemma PromotedSeparate(state: Accounts, now: int, s: Snapshot, s': Snapshot, p: Lists, a: Address)
    requires Promoted(state, now, s, s', a) && Sub(ListOf(p, a), ListOf(s'.pending, a)) && Separate(s.pending, s'.queue, a)
    ensures Separate(p, s'.queue, a)
  {
    hide Due, Waiting, Advanced;
    WaitingTidy(ListOf(s.queue, a), Get(state, a), s.nonces.GetNonce(a), MAX_QUEUED_PER_ACCOUNT);
  }

  /** It does so, tidy and without touching executable transactions, if nothing waits at an executable nonce. */
  lemma EnforcedApart(state: Accounts, local: set<Tx>, now: int, s: Snapshot, r: Passage, s': Snapshot)
    requires Enforced(state, local, now, s, r, s') && NonEmpty(r.evicted.pending) && NonEmpty(s'.pending)
    requires Unclashed(state, s)
    ensures s'.pending == r.evicted.pending && Size(s'.queue) <= MAX_QUEUED_IN_TOTAL
    ensures forall a <- s'.queue :: Tidy(s'.queue[a], Get(state, a), MAX_QUEUED_PER_ACCOUNT)
  {
    hide Size, Promoted, WaitingLists, Overflowed, NoneSpills, Covers, NonEmpty, Separate, Tidy, Lowest, Sub, Room, Evicted;
    if Size(r.promoted.queue) <= MAX_QUEUED_IN_TOTAL {
      forall a <- s'.queue ensures Tidy(s'.queue[a], Get(state, a), MAX_QUEUED_PER_ACCOUNT) {
        PromotedTidy(state, now, s, r.promoted, a);
      }
    } else {
      forall a ensures Separate(r.evicted.pending, r.evicted.queue, a) {
        EvictedGuarantee(r.promoted.pending, local, r.evicted.pending, r.candidates, r.level, a);
        PromotedSeparate(state, now, s, r.promoted, r.evicted.pending, a);
      }
      OverflowedApart(r.evicted, s', r.order);
      forall a <- s'.queue ensures Tidy(s'.queue[a], Get(state, a), MAX_QUEUED_PER_ACCOUNT) {
        PromotedTidy(state, now, s, r.promoted, a);
        var i := PlaceOf(r.evicted, s', r.order, a);
        TidyLowest(ListOf(r.evicted.queue, a), Get(state, a), MAX_QUEUED_PER_ACCOUNT, Room(r.evicted.queue, r.order, i));
      }
    }
  }

  lemma PromotedTidy(state: Accounts, now: int, s: Snapshot, s': Snapshot, a: Address)
    requires Promoted(state, now, s, s', a)
    ensures Tidy(ListOf(s'.queue, a), Get(state, a), MAX_QUEUED_PER_ACCOUNT)
  {
    hide Due, Waiting, Advanced, Merge;
    WaitingTidy(ListOf(s.queue, a), Get(state, a), s.nonces.GetNonce(a), MAX_QUEUED_PER_ACCOUNT);
  }

  lemma PlaceOf(s: Snapshot, s': Snapshot, order: seq<Address>, a: Address) returns (i: nat)
    requires Covers(s.queue, order) && Overflowed(s, s', order) && a in s'.queue
    ensures i < |order| && order[i] == a
  {
    assert a in order;
    i :| 0 <= i < |order| && order[i] == a;
  }

  const MAX_QUEUED_LIFETIME := 3 * 60 * 60

  /** What expiration makes of an account that has been idle for some time. */
  ghost predicate Expired(idle: int, s: Snapshot, s': Snapshot, a: Address) {
    var p, q := ListOf(s.pending, a), ListOf(s.queue, a);
    (ListOf(s'.pending, a), ListOf(s'.queue, a)) == if idle > MAX_QUEUED_LIFETIME then Dropped(p, q, 0) else (p, q)
  }

  lemma ExpiredNone(idle: int, s: Snapshot, a: Address)
    requires a !in s.queue
    ensures Expired(idle, s, s, a)
  {
  }

  lemma ExpiredSame(idle: int, s: Snapshot, t: Snapshot, s': Snapshot, t': Snapshot, a: Address)
    requires Expired(idle, s, s', a) && Untouched(t, s, a) && Untouched(s', t', a)
    ensures Expired(idle, t, t', a)
  {
    hide Dropped;
  }

  /** If no nonce of the account is in both lists, the waiting list goes and the executable list stays. */
  lemma ExpiredApart(idle: int, s: Snapshot, s': Snapshot, a: Address)
    requires Expired(idle, s, s', a) && idle > MAX_QUEUED_LIFETIME && Separate(s.pending, s.queue, a)
    ensures ListOf(s'.queue, a) == map[] && ListOf(s'.pending, a) == ListOf(s.pending, a)
  {
    hide Dropped, Lowest;
    DroppedApart(ListOf(s.pending, a), ListOf(s.queue, a), 0);
  }
}
