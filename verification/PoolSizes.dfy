/** Counting the transactions of per-account lists. */
module PoolSizes {
  import opened ChainTypes
  import opened SortedTxs
  import opened PoolLists

  ghost function Slots(l: Lists): set<(Address, nat)> {
    set a, n | a in l && n in l[a] :: (a, n)
  }

  /** Sum of the list lengths. */
  ghost function Size(l: Lists): nat {
    |Slots(l)|
  }

  lemma SizeNone()
    ensures Size(map[]) == 0
  {
  }

  ghost function Column(a: Address, keys: set<nat>): set<(Address, nat)> {
    set n | n in keys :: (a, n)
  }

  lemma {:induction false} ColumnSize(a: Address, keys: set<nat>)
    ensures |Column(a, keys)| == |keys|
  {
    if keys != {} {
      var n :| n in keys;
      ColumnSize(a, keys - {n});
      assert Column(a, keys) == Column(a, keys - {n}) + {(a, n)};
    }
  }

  lemma SlotIn(l: Lists, p: (Address, nat))
    ensures p in Slots(l) <==> p.1 in ListOf(l, p.0)
  {
    if p.1 in ListOf(l, p.0) {
      assert (p.0, p.1) in Slots(l);
    }
  }

  lemma ColumnIn(a: Address, keys: set<nat>, p: (Address, nat))
    ensures p in Column(a, keys) <==> p.0 == a && p.1 in keys
  {
    if p.0 == a && p.1 in keys {
      assert (a, p.1) in Column(a, keys);
    }
  }

  lemma SizeRemove(l: Lists, a: Address)
    ensures Size(l - {a}) == Size(l) - |ListOf(l, a)|
  {
    hide Slots, Column;
    var rest, column := Slots(l - {a}), Column(a, ListOf(l, a).Keys);
    ColumnSize(a, ListOf(l, a).Keys);
    forall p: (Address, nat) ensures (p in Slots(l) <==> p in rest + column) && !(p in rest && p in column) {
      SlotIn(l, p);
      SlotIn(l - {a}, p);
      ColumnIn(a, ListOf(l, a).Keys, p);
    }
    assert Slots(l) == rest + column && rest !! column;
  }

  /** Replacing one list changes the sum by the change of its length. */
  lemma SizeUpdate(l: Lists, a: Address, items: Items)
    ensures Size(l[a := items]) == Size(l) - |ListOf(l, a)| + |items|
  {
    SizeRemove(l, a);
    SizeRemove(l[a := items], a);
    assert l[a := items] - {a} == l - {a};
  }

  /** The longest list among some accounts. */
  lemma LongestExists(l: Lists, s: set<Address>)
    requires s != {} && s <= l.Keys
    ensures exists a :: a in s && forall b <- s :: |l[b]| <= |l[a]|
  {
    var longest := MinimumExists(s, (a: Address) => -|ListOf(l, a)|);
    assert forall b <- s :: |l[b]| <= |l[longest]|;
  }

  lemma ListWithinSize(l: Lists, a: Address)
    ensures |ListOf(l, a)| <= Size(l)
  {
    SizeRemove(l, a);
  }

  /** Adding up the lengths one account at a time. */
  method Total(l: Lists) returns (total: nat)
    ensures total == Size(l)
  {
    total := 0;
    var rest := l.Keys;
    assert l - rest == map[];
    while rest != {}
      invariant rest <= l.Keys && total == Size(l - rest)
      decreases rest
    {
      var a :| a in rest;
      SizeRemove(l - (rest - {a}), a);
      assert l - (rest - {a}) - {a} == l - rest;
      total, rest := total + |l[a]|, rest - {a};
    }
    assert l - {} == l;
  }

  /** Counting one more account after its list was replaced. */
  lemma SizeStep(l: Lists, rest: set<Address>, a: Address, items: Items)
    requires a in rest
    ensures Size(Replace(l, a, items) - (rest - {a})) == Size(l - rest) + |items|
  {
    if items == map[] {
      assert Replace(l, a, items) - (rest - {a}) == l - rest;
    } else {
      assert Replace(l, a, items) - (rest - {a}) == (l - rest)[a := items];
      SizeUpdate(l - rest, a, items);
    }
  }

  /** Lists that differ at one account differ in size by the difference there. */
  lemma SizeByLists(l: Lists, l': Lists, a: Address)
    requires forall b | b != a :: ListOf(l, b) == ListOf(l', b)
    ensures Size(l') == Size(l) - |ListOf(l, a)| + |ListOf(l', a)|
  {
    SizeRemove(l, a);
    SizeRemove(l', a);
    forall b, n ensures (b, n) in Slots(l - {a}) <==> (b, n) in Slots(l' - {a}) {
      if b != a {
        assert n in ListOf(l, b) <==> n in ListOf(l', b);
      }
    }
    assert Slots(l - {a}) == Slots(l' - {a});
  }

  lemma {:induction false} SubsetSize<T>(x: set<T>, y: set<T>)
    requires x <= y
    ensures |x| <= |y|
  {
    if x != {} {
      var e :| e in x;
      SubsetSize(x - {e}, y - {e});
    }
  }

  /** Shorter lists have a smaller sum. */
  lemma SizeSub(l: Lists, l': Lists)
    requires forall a, n | n in ListOf(l, a) :: n in ListOf(l', a)
    ensures Size(l) <= Size(l')
  {
    forall p <- Slots(l) ensures p in Slots(l') {
      assert p.1 in ListOf(l, p.0);
      SlotIn(l', p);
    }
    SubsetSize(Slots(l), Slots(l'));
  }

  lemma SizeSame(l: Lists, l': Lists)
    requires forall a :: ListOf(l, a) == ListOf(l', a)
    ensures Size(l) == Size(l')
  {
    SizeByLists(l, l', 0);
  }

  /** The lengths of the lists of some accounts, added up. */
  ghost function SumLengths(l: Lists, s: seq<Address>): nat {
    if s == [] then 0 else SumLengths(l, s[..|s| - 1]) + |ListOf(l, s[|s| - 1])|
  }

  lemma {:induction false} SumWithout(l: Lists, s: seq<Address>, a: Address)
    requires a !in s
    ensures SumLengths(l - {a}, s) == SumLengths(l, s)
  {
    if s != [] {
      SumWithout(l, s[..|s| - 1], a);
    }
  }

  /** Over all accounts that is the size. */
  lemma {:induction false} SumIsSize(l: Lists, s: seq<Address>)
    requires Distinct(s) && forall a <- l :: a in s
    ensures SumLengths(l, s) == Size(l)
  {
    hide SumLengths, Size;
    if s == [] {
      assert l == map[];
      SizeNone();
      SumNone(l);
    } else {
      var a, front := s[|s| - 1], s[..|s| - 1];
      SumLast(l, s);
      SizeRemove(l, a);
      SumWithout(l, front, a);
      forall b <- l - {a} ensures b in front {
        assert b in s;
      }
      SumIsSize(l - {a}, front);
    }
  }

  lemma SumStep(l: Lists, s: seq<Address>, i: nat)
    requires i < |s|
    ensures SumLengths(l, s[..i + 1]) == SumLengths(l, s[..i]) + |ListOf(l, s[i])|
  {
    assert s[..i + 1][..i] == s[..i];
  }

  lemma {:induction false} SumGrows(l: Lists, s: seq<Address>, i: nat, j: nat)
    requires i <= j <= |s|
    ensures SumLengths(l, s[..i]) <= SumLengths(l, s[..j])
  {
    hide SumLengths;
    if i < j {
      SumGrows(l, s, i, j - 1);
      SumStep(l, s, j - 1);
    }
  }

  ghost predicate Distinct(s: seq<Address>) {
    forall i, j | 0 <= i < j < |s| :: s[i] != s[j]
  }

  lemma SumNone(l: Lists)
    ensures SumLengths(l, []) == 0
  {
  }

  lemma SumLast(l: Lists, s: seq<Address>)
    requires s != []
    ensures SumLengths(l, s) == SumLengths(l, s[..|s| - 1]) + |ListOf(l, s[|s| - 1])|
    ensures Distinct(s) ==> Distinct(s[..|s| - 1]) && s[|s| - 1] !in s[..|s| - 1]
  {
  }

  /** The accounts with lists, by the time of their last heartbeat; none counts as time zero. */
  method ByHeartbeat(l: Lists, beats: map<Address, int>) returns (r: seq<Address>)
    ensures Distinct(r) && forall a :: a in l <==> a in r
    ensures forall i, j | 0 <= i < j < |r| :: Beat(beats, r[i]) <= Beat(beats, r[j])
  {
    r := [];
    var rest := l.Keys;
    while rest != {}
      invariant rest <= l.Keys && Distinct(r) && forall a :: a in r <==> a in l && a !in rest
      invariant forall i, j | 0 <= i < j < |r| :: Beat(beats, r[i]) <= Beat(beats, r[j])
      invariant forall a, b | a in r && b in rest :: Beat(beats, a) <= Beat(beats, b)
      decreases rest
    {
      EarliestExists(beats, rest);
      var a :| a in rest && forall b <- rest :: Beat(beats, a) <= Beat(beats, b);
      r, rest := r + [a], rest - {a};
    }
  }

  function Beat(beats: map<Address, int>, a: Address): int {
    if a in beats then beats[a] else 0
  }

  lemma EarliestExists(beats: map<Address, int>, s: set<Address>)
    requires s != {}
    ensures exists a :: a in s && forall b <- s :: Beat(beats, a) <= Beat(beats, b)
  {
    var earliest := MinimumExists(s, (a: Address) => Beat(beats, a));
    assert forall b <- s :: Beat(beats, earliest) <= Beat(beats, b);
  }
}
