/**
 * std::make_heap and std::pop_heap as Banker::is_safe uses them, on an array
 * ordered by a key: with the comparison key(a) < key(b) the element of
 * largest key is at the front.
 *
 * Both work by moving an element down to its place.  Only their contracts,
 * those of section 28.7.7 of ISO/IEC 14882:2017, are used elsewhere: which of
 * several elements of equal key comes to the front is left open.
 */
module Heap {
  import opened BankerTheory

  function Parent(j: int): int {
    (j - 1) / 2
  }

  /** The element at j is no larger than the one at i. */
  predicate Covers(q: seq<Pid>, i: int, j: int, key: Pid -> int) {
    0 <= i < |q| && 0 <= j < |q| && key(q[i]) >= key(q[j])
  }

  /** No element of the first n is larger than its parent, for parents at or
      after position lo. */
  ghost predicate HeapFrom(q: seq<Pid>, lo: int, n: int, key: Pid -> int) {
    0 <= n <= |q| && forall j :: 1 <= j < n && Parent(j) >= lo ==> Covers(q, Parent(j), j, key)
  }

  ghost predicate IsHeap(q: seq<Pid>, n: int, key: Pid -> int) {
    HeapFrom(q, 0, n, key)
  }

  /** The front of a heap has the largest key. */
  lemma {:induction false} FrontIsLargest(q: seq<Pid>, n: nat, key: Pid -> int, i: nat)
    requires IsHeap(q, n, key) && i < n
    ensures key(q[0]) >= key(q[i])
    decreases i
  {
    if i > 0 {
      assert Covers(q, Parent(i), i, key);
      FrontIsLargest(q, n, key, Parent(i));
    }
  }

  function Swap(q: seq<Pid>, i: nat, j: nat): seq<Pid>
    requires i < |q| && j < |q|
  {
    q[i := q[j]][j := q[i]]
  }

  lemma SwapMultiset(q: seq<Pid>, i: nat, j: nat)
    requires i < |q| && j < |q|
    ensures multiset(Swap(q, i, j)) == multiset(q)
  {
  }

  /** As HeapFrom, except that the element at `hole` may be smaller than its
      children, which are no larger than its parent. */
  ghost predicate HeapBut(q: seq<Pid>, lo: int, hole: int, n: int, key: Pid -> int) {
    && lo <= hole && 0 <= n <= |q|
    && (forall j :: 1 <= j < n && Parent(j) >= lo && Parent(j) != hole ==> Covers(q, Parent(j), j, key))
    && (forall j :: 1 <= j < n && Parent(j) == hole && Parent(hole) >= lo && hole >= 1 ==>
          Covers(q, Parent(hole), j, key))
  }

  /** c is the larger child of the hole, and larger than the hole. */
  ghost predicate LargestChild(q: seq<Pid>, hole: nat, c: nat, n: nat, key: Pid -> int)
    requires hole < n <= |q| && c < n
  {
    && (c == 2 * hole + 1 || c == 2 * hole + 2)
    && key(q[hole]) < key(q[c]) && key(q[2 * hole + 1]) <= key(q[c])
    && (2 * hole + 2 < n ==> key(q[2 * hole + 2]) <= key(q[c]))
  }

  /** Exchanging the hole with its largest child moves the hole down. */
  lemma HoleMoves(q: seq<Pid>, lo: nat, hole: nat, c: nat, n: nat, key: Pid -> int)
    requires HeapBut(q, lo, hole, n, key) && hole < n <= |q| && c < n && LargestChild(q, hole, c, n, key)
    ensures HeapBut(Swap(q, hole, c), lo, c, n, key)
  {
    var r := Swap(q, hole, c);
    forall j | 1 <= j < n && Parent(j) == hole ensures Covers(q, c, j, key) {
      assert j == 2 * hole + 1 || j == 2 * hole + 2;
    }
    forall j | 1 <= j < n && Parent(j) >= lo && Parent(j) != c ensures Covers(r, Parent(j), j, key) {
      if Parent(j) == hole {
        assert Covers(q, c, j, key);
      } else if j == hole {
        assert Covers(q, Parent(hole), c, key);
      } else {
        assert Covers(q, Parent(j), j, key);
      }
    }
    forall j | 1 <= j < n && Parent(j) == c ensures Covers(r, hole, j, key) {
      assert Covers(q, c, j, key);
    }
  }

  lemma HoleOpens(q: seq<Pid>, lo: nat, n: nat, key: Pid -> int)
    requires HeapFrom(q, lo + 1, n, key)
    ensures HeapBut(q, lo, lo, n, key)
  {
  }

  /** The hole is filled once it has no larger child. */
  lemma HoleFilled(q: seq<Pid>, lo: nat, hole: nat, n: nat, key: Pid -> int)
    requires HeapBut(q, lo, hole, n, key) && n <= |q| && hole < n
    requires 2 * hole + 1 < n ==> key(q[hole]) >= key(q[2 * hole + 1])
    requires 2 * hole + 2 < n ==> key(q[hole]) >= key(q[2 * hole + 2])
    ensures HeapFrom(q, lo, n, key)
  {
    forall j | 1 <= j < n && Parent(j) >= lo ensures Covers(q, Parent(j), j, key) {
      assert Parent(j) == hole ==> j == 2 * hole + 1 || j == 2 * hole + 2;
    }
  }

  /** Exchanges two of the first n cells. */
  method SwapCells(a: array<Pid>, i: nat, j: nat, n: nat)
    requires i < n <= a.Length && j < n
    modifies a
    ensures a[..] == Swap(old(a[..]), i, j) && a[n..] == old(a[n..])
  {
    a[i], a[j] := a[j], a[i];
  }

  /** Moves the element at lo down to its place among the first n. */
  method SiftDown(a: array<Pid>, lo: nat, n: nat, key: Pid -> int)
    requires lo < n <= a.Length && HeapFrom(a[..], lo + 1, n, key)
    modifies a
    ensures HeapFrom(a[..], lo, n, key)
    ensures multiset(a[..]) == multiset(old(a[..]))
    ensures a[n..] == old(a[n..])
  {
    hide HeapBut, HeapFrom, Swap;
    HoleOpens(a[..], lo, n, key);
    var hole := lo;
    while 2 * hole + 1 < n
      invariant lo <= hole < n
      invariant HeapBut(a[..], lo, hole, n, key)
      invariant multiset(a[..]) == multiset(old(a[..]))
      invariant a[n..] == old(a[n..])
    {
      ghost var q := a[..];
      var c := 2 * hole + 1;
      if c + 1 < n && key(a[c]) < key(a[c + 1]) {
        c := c + 1;
      }
      if key(a[hole]) >= key(a[c]) {
        break;
      }
      assert LargestChild(q, hole, c, n, key);
      hide LargestChild;
      SwapMultiset(q, hole, c);
      HoleMoves(q, lo, hole, c, n, key);
      SwapCells(a, hole, c, n);
      hole := c;
    }
    HoleFilled(a[..], lo, hole, n, key);
  }

  method MakeHeap(a: array<Pid>, key: Pid -> int)
    modifies a
    ensures IsHeap(a[..], a.Length, key)
    ensures multiset(a[..]) == multiset(old(a[..]))
  {
    var i := a.Length / 2;
    while i > 0
      invariant 0 <= i <= a.Length / 2
      invariant HeapFrom(a[..], i, a.Length, key)
      invariant multiset(a[..]) == multiset(old(a[..]))
    {
      i := i - 1;
      SiftDown(a, i, a.Length, key);
    }
  }

  /** Moves the front of the heap of the first n behind the others. */
  method PopHeap(a: array<Pid>, n: nat, key: Pid -> int)
    requires 1 <= n <= a.Length && IsHeap(a[..], n, key)
    modifies a
    ensures a[n - 1] == old(a[0]) && a[n..] == old(a[n..])
    ensures IsHeap(a[..], n - 1, key)
    ensures multiset(a[..]) == multiset(old(a[..]))
  {
    ghost var q := a[..];
    SwapMultiset(q, 0, n - 1);
    a[0], a[n - 1] := a[n - 1], a[0];
    assert a[..] == Swap(q, 0, n - 1);
    PopReady(q, n, key);
    if n > 1 {
      ghost var r := a[..];
      SiftDown(a, 0, n - 1, key);
      assert a[n - 1..] == r[n - 1..];
      assert a[n - 1] == a[n - 1..][0] == r[n - 1..][0];
      assert a[n..] == a[n - 1..][1..] && r[n..] == r[n - 1..][1..];
    }
  }

  lemma PopReady(q: seq<Pid>, n: nat, key: Pid -> int)
    requires 1 <= n <= |q| && IsHeap(q, n, key)
    ensures HeapFrom(Swap(q, 0, n - 1), 1, n - 1, key)
    ensures Swap(q, 0, n - 1)[n..] == q[n..] && Swap(q, 0, n - 1)[n - 1] == q[0]
  {
    var r := Swap(q, 0, n - 1);
    forall j | 1 <= j < n - 1 && Parent(j) >= 1 ensures Covers(r, Parent(j), j, key) {
      assert Covers(q, Parent(j), j, key);
    }
  }
}
