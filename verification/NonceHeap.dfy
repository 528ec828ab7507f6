/** The binary heap of nonces: the operations of Go's container/heap on a slice. */
module NonceHeap {

  function Parent(k: nat): int {
    (k - 1) / 2
  }

  /** Every element from position `lo` down to `n` is no greater than its children. */
  ghost predicate HeapOn(h: seq<nat>, lo: nat, n: nat)
    requires n <= |h|
  {
    forall k | 0 < k < n && lo <= Parent(k) :: h[Parent(k)] <= h[k]
  }

  ghost predicate IsHeap(h: seq<nat>) {
    HeapOn(h, 0, |h|)
  }

  /** The root of a heap is its least element. */
  lemma {:induction false} HeapRootLeast(h: seq<nat>, k: nat)
    requires IsHeap(h) && k < |h|
    ensures h[0] <= h[k]
    decreases k
  {
    if 0 < k {
      HeapRootLeast(h, Parent(k));
    }
  }

  lemma HeapRootLeastOfAll(h: seq<nat>)
    requires IsHeap(h) && h != []
    ensures forall x <- h :: h[0] <= x
  {
    forall x <- h ensures h[0] <= x {
      var k :| 0 <= k < |h| && h[k] == x;
      HeapRootLeast(h, k);
    }
  }

  function Swap(h: seq<nat>, i: nat, j: nat): (r: seq<nat>)
    requires i < |h| && j < |h|
    ensures |r| == |h| && multiset(r) == multiset(h) && r[i] == h[j] && r[j] == h[i]
    ensures forall k | 0 <= k < |h| && k != i && k != j :: r[k] == h[k]
  {
    h[i := h[j]][j := h[i]]
  }

  /** The first `n` are ordered but for the element at `j`, which may be less than its parent. */
  ghost predicate Rising(h: seq<nat>, j: nat, n: nat)
    requires j < n <= |h|
  {
    && (forall k | 0 < k < n && k != j :: h[Parent(k)] <= h[k])
    && (forall k | 0 < k < n && Parent(k) == j && 0 < j :: h[Parent(j)] <= h[k])
  }

  lemma RiseStep(h: seq<nat>, j: nat, n: nat)
    requires 0 < j < n <= |h| && Rising(h, j, n) && h[j] < h[Parent(j)]
    ensures Rising(Swap(h, Parent(j), j), Parent(j), n)
  {
    hide Swap;
  }

  lemma RiseDone(h: seq<nat>, j: nat, n: nat)
    requires j < n <= |h| && Rising(h, j, n) && (j == 0 || h[Parent(j)] <= h[j])
    ensures HeapOn(h, 0, n)
  {
  }

  /** Sifts the element at `j0` up within the first `n`. */
  method Up(h: seq<nat>, j0: nat, n: nat) returns (r: seq<nat>)
    requires j0 < n <= |h| && Rising(h, j0, n)
    ensures |r| == |h| && multiset(r) == multiset(h) && r[n..] == h[n..] && HeapOn(r, 0, n)
  {
    hide Swap, Rising, HeapOn;
    r := h;
    var j := j0;
    while 0 < j && r[j] < r[Parent(j)]
      invariant 0 <= j < n && |r| == |h| && multiset(r) == multiset(h) && r[n..] == h[n..]
      invariant Rising(r, j, n)
      decreases j
    {
      RiseStep(r, j, n);
      r := Swap(r, Parent(j), j);
      j := Parent(j);
    }
    RiseDone(r, j, n);
  }

  /** The heap is ordered below `lo` but for the element at `i`, which is being sifted down from `i0`. */
  ghost predicate Sifting(h: seq<nat>, i0: nat, i: nat, n: nat, lo: nat)
    requires i0 <= i <= n <= |h|
  {
    && (forall k | 0 < k < n && lo <= Parent(k) && Parent(k) != i && k != i0 :: h[Parent(k)] <= h[k])
    && (forall k | 0 < k < n && Parent(k) == i && 0 < i && lo <= Parent(i) :: h[Parent(i)] <= h[k])
    && (i0 < i ==> i < n && (0 < i0 && lo <= Parent(i0) ==> h[Parent(i0)] <= h[i0]))
  }

  /** Swapping with the lesser child moves the fault one level down. */
  lemma SiftStep(h: seq<nat>, i0: nat, i: nat, j: nat, n: nat, lo: nat)
    requires i0 <= i < j < n <= |h| && Parent(j) == i && Sifting(h, i0, i, n, lo)
    requires h[j] < h[i] && forall k | 0 < k < n && Parent(k) == i :: h[j] <= h[k]
    ensures Sifting(Swap(h, i, j), i0, j, n, lo)
  {
    var r := Swap(h, i, j);
    forall k | 0 < k < n && lo <= Parent(k) && Parent(k) != j && k != i0 ensures r[Parent(k)] <= r[k] {
      if k == i {
        assert h[Parent(i)] <= h[j];
      }
    }
    forall k | 0 < k < n && Parent(k) == j && lo <= Parent(j) ensures r[Parent(j)] <= r[k] {
      assert h[Parent(k)] <= h[k];
    }
  }

  /** Where the fault is no greater than the children, everything is ordered. */
  lemma SiftDone(h: seq<nat>, i0: nat, i: nat, n: nat, lo: nat)
    requires i0 <= i <= n <= |h| && Sifting(h, i0, i, n, lo)
    requires forall k | 0 < k < n && Parent(k) == i :: h[i] <= h[k]
    ensures forall k | 0 < k < n && lo <= Parent(k) && k != i0 :: h[Parent(k)] <= h[k]
    ensures i0 < i && 0 < i0 && lo <= Parent(i0) ==> i0 < n && h[Parent(i0)] <= h[i0]
  {
  }

  /** The lesser child of `i`, which must have one. */
  function LesserChild(h: seq<nat>, i: nat, n: nat): (j: nat)
    requires 2 * i + 1 < n <= |h|
    ensures i < j < n && Parent(j) == i && forall k | 0 < k < n && Parent(k) == i :: h[j] <= h[k]
  {
    if 2 * i + 2 < n && h[2 * i + 2] < h[2 * i + 1] then 2 * i + 2 else 2 * i + 1
  }

  /** Sifts the element at `i0` down within the first `n` and tells whether it moved.  Everything below
      `lo` is ordered afterwards, except that `i0` itself may still be less than its parent if it stayed. */
  method Down(h: seq<nat>, i0: nat, n: nat, ghost lo: nat) returns (r: seq<nat>, moved: bool)
    requires i0 <= n <= |h| && Sifting(h, i0, i0, n, lo)
    ensures |r| == |h| && multiset(r) == multiset(h) && r[n..] == h[n..]
    ensures forall k | 0 < k < n && lo <= Parent(k) && k != i0 :: r[Parent(k)] <= r[k]
    ensures moved && 0 < i0 && lo <= Parent(i0) ==> i0 < n && r[Parent(i0)] <= r[i0]
    ensures !moved ==> r == h
  {
    hide Sifting, Swap, LesserChild;
    r := h;
    var i := i0;
    while 2 * i + 1 < n
      invariant i0 <= i <= n && |r| == |h| && multiset(r) == multiset(h) && r[n..] == h[n..]
      invariant i == i0 ==> r == h
      invariant Sifting(r, i0, i, n, lo)
      decreases n - i
    {
      var j := LesserChild(r, i, n);
      if r[j] >= r[i] {
        break;
      }
      SiftStep(r, i0, i, j, n, lo);
      r := Swap(r, i, j);
      i := j;
    }
    SiftDone(r, i0, i, n, lo);
    moved := i > i0;
  }

  method Push(h: seq<nat>, x: nat) returns (r: seq<nat>)
    requires IsHeap(h)
    ensures IsHeap(r) && multiset(r) == multiset(h) + multiset{x}
  {
    r := h + [x];
    r := Up(r, |h|, |h| + 1);
  }

  /** Takes the least nonce off the heap. */
  method Pop(h: seq<nat>) returns (r: seq<nat>, x: nat)
    requires IsHeap(h) && h != []
    ensures IsHeap(r) && x == h[0] && multiset(h) == multiset(r) + multiset{x}
    ensures forall y <- h :: x <= y
  {
    HeapRootLeastOfAll(h);
    var n := |h| - 1;
    var s := Swap(h, 0, n);
    var moved;
    s, moved := Down(s, 0, n, 0);
    r, x := s[..n], s[n];
    CutLast(s);
  }

  /** Restores the order within the first `n` when only the element at `i` is out of place. */
  method Fix(h: seq<nat>, i: nat, n: nat) returns (r: seq<nat>)
    requires i < n <= |h| && Sifting(h, i, i, n, 0)
    ensures |r| == |h| && multiset(r) == multiset(h) && HeapOn(r, 0, n) && forall k | n <= k < |h| :: r[k] == h[k]
  {
    var moved;
    r, moved := Down(h, i, n, 0);
    if !moved {
      r := Up(r, i, n);
    }
    assert forall k | n <= k < |h| :: r[k] == r[n..][k - n];
  }

  /** Putting the last element in place of another leaves only that one out of place. */
  lemma SwapOut(h: seq<nat>, i: nat)
    requires IsHeap(h) && i < |h| - 1
    ensures Sifting(Swap(h, i, |h| - 1), i, i, |h| - 1, 0)
  {
    hide Swap;
    if 0 < i {
      forall k | 0 < k < |h| && Parent(k) == i ensures h[Parent(i)] <= h[k] {
        assert h[Parent(i)] <= h[i] <= h[k];
      }
    }
  }

  /** Takes the nonce at position `i` off the heap. */
  method Remove(h: seq<nat>, i: nat) returns (r: seq<nat>)
    requires IsHeap(h) && i < |h|
    ensures IsHeap(r) && multiset(h) == multiset(r) + multiset{h[i]}
  {
    hide Swap, Sifting, HeapOn, IsHeap;
    var n := |h| - 1;
    var s := h;
    if n != i {
      SwapOut(h, i);
      s := Swap(h, i, n);
      s := Fix(s, i, n);
    } else {
      HeapShorter(h);
    }
    r := s[..n];
    CutLast(s);
  }

  lemma HeapShorter(h: seq<nat>)
    requires IsHeap(h) && h != []
    ensures HeapOn(h, 0, |h| - 1)
  {
  }

  lemma CutLast(h: seq<nat>)
    requires h != [] && HeapOn(h, 0, |h| - 1)
    ensures IsHeap(h[..|h| - 1]) && multiset(h) == multiset(h[..|h| - 1]) + multiset{h[|h| - 1]}
  {
    assert h == h[..|h| - 1] + [h[|h| - 1]];
  }

  /** Makes a heap of any slice. */
  method Init(h: seq<nat>) returns (r: seq<nat>)
    ensures IsHeap(r) && multiset(r) == multiset(h)
  {
    r := h;
    var i := |h| / 2 - 1;
    while i >= 0
      invariant -1 <= i < |h| && |r| == |h| && multiset(r) == multiset(h)
      invariant HeapOn(r, i + 1, |r|)
    {
      var moved;
      r, moved := Down(r, i, |r|, i);
      i := i - 1;
    }
  }
}
