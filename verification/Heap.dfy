/** The heap algorithms of the C++ library that RCF uses (`push_heap`, `pop_heap`
    and `make_heap`, section 25.3.6 of ISO/IEC 14882:2003) and RCF's `Heap`, which
    keeps a vector in heap order under a comparator that can be replaced. */
module Heaps {

  /** What the library demands of a comparator. */
  ghost predicate StrictWeak<E(!new)>(comp: (E, E) -> bool)
  {
    && (forall a, b | comp(a, b) :: !comp(b, a))
    && (forall a, b, c {:trigger comp(a, b), comp(b, c)} | !comp(a, b) && !comp(b, c) :: !comp(a, c))
  }

  function Parent(i: int): nat
    requires i > 0
  {
    (i - 1) / 2
  }

  /** Element `i` is not greater than its parent. */
  ghost predicate InOrder<E>(comp: (E, E) -> bool, s: seq<E>, i: int)
    requires 0 < i < |s|
  {
    !comp(s[Parent(i)], s[i])
  }

  ghost predicate IsHeap<E>(comp: (E, E) -> bool, s: seq<E>)
  {
    forall i | 0 < i < |s| :: InOrder(comp, s, i)
  }

  /** The first element of a heap is not less than any other. */
  lemma {:induction false} TopIsGreatest<E(!new)>(comp: (E, E) -> bool, s: seq<E>, i: nat)
    requires StrictWeak(comp) && IsHeap(comp, s) && i < |s|
    ensures !comp(s[0], s[i])
  {
    if i > 0 {
      TopIsGreatest(comp, s, Parent(i));
      assert InOrder(comp, s, i);
    }
  }

  /** Every element is in order with its parent, among the first `n` and under the
      parents from `lo` on, except the children of `hole`. */
  ghost predicate OrderedFrom<E>(comp: (E, E) -> bool, s: seq<E>, n: nat, lo: nat, hole: int)
    requires n <= |s|
  {
    forall i | 0 < i < n && lo <= Parent(i) != hole :: InOrder(comp, s, i)
  }

  /** The children of `hole` are in order with its parent, if that one is at `lo`
      or after. */
  ghost predicate Grandchildren<E>(comp: (E, E) -> bool, s: seq<E>, n: nat, lo: nat, hole: nat)
    requires hole < n <= |s|
  {
    hole > 0 && lo <= Parent(hole) ==> forall i | 0 < i < n && Parent(i) == hole :: !comp(s[Parent(hole)], s[i])
  }

  function Swapped<E>(s: seq<E>, i: nat, j: nat): (r: seq<E>)
    requires i < |s| && j < |s|
    ensures |r| == |s| && multiset(r) == multiset(s)
  {
    s[i := s[j]][j := s[i]]
  }

  /** Moves the last element up to its place. */
  method PushHeap<E(!new)>(s: seq<E>, comp: (E, E) -> bool) returns (r: seq<E>)
    requires |s| > 0 && StrictWeak(comp) && IsHeap(comp, s[..|s| - 1])
    ensures IsHeap(comp, r) && multiset(r) == multiset(s)
  {
    r := s;
    var k := |s| - 1;
    forall i | 0 < i < k
      ensures InOrder(comp, r, i)
    {
      assert InOrder(comp, s[..|s| - 1], i);
    }
    while k > 0 && comp(r[Parent(k)], r[k])
      invariant 0 <= k < |r| == |s| && multiset(r) == multiset(s)
      invariant forall i | 0 < i < |r| && i != k :: InOrder(comp, r, i)
      invariant Grandchildren(comp, r, |r|, 0, k)
    {
      SwapUp(comp, r, k);
      r := Swapped(r, k, Parent(k));
      k := Parent(k);
    }
  }

  /** An element greater than its parent changes places with it. */
  lemma SwapUp<E(!new)>(comp: (E, E) -> bool, s: seq<E>, k: nat)
    requires StrictWeak(comp) && 0 < k < |s| && comp(s[Parent(k)], s[k])
    requires forall i | 0 < i < |s| && i != k :: InOrder(comp, s, i)
    requires Grandchildren(comp, s, |s|, 0, k)
    ensures var r := Swapped(s, k, Parent(k));
      && (forall i | 0 < i < |s| && i != Parent(k) :: InOrder(comp, r, i))
      && Grandchildren(comp, r, |s|, 0, Parent(k))
  {
    var p := Parent(k);
    var r := Swapped(s, k, p);
    forall i | 0 < i < |s| && i != p
      ensures InOrder(comp, r, i)
    {
      if i != k {
        assert InOrder(comp, s, i);
      }
    }
    if p > 0 {
      assert InOrder(comp, s, p);
      forall i | 0 < i < |s| && Parent(i) == p
        ensures !comp(r[Parent(p)], r[i])
      {
        if i != k {
          assert InOrder(comp, s, i);
        }
      }
    }
  }

  method GreaterChild<E(!new)>(s: seq<E>, comp: (E, E) -> bool, k: nat, n: nat) returns (child: nat)
    requires 2 * k + 1 < n <= |s| && StrictWeak(comp)
    ensures k < child < n && Parent(child) == k
    ensures forall i | 0 < i < n && Parent(i) == k :: !comp(s[child], s[i])
  {
    child := 2 * k + 1;
    if child + 1 < n && comp(s[child], s[child + 1]) {
      child := child + 1;
    }
  }

  /** Moves element `lo` down to its place among the first `n`. */
  method SiftDown<E(!new)>(s: seq<E>, comp: (E, E) -> bool, lo: nat, n: nat) returns (r: seq<E>)
    requires lo < n <= |s| && StrictWeak(comp) && OrderedFrom(comp, s, n, lo + 1, -1)
    ensures |r| == |s| && r[n..] == s[n..] && multiset(r) == multiset(s)
    ensures OrderedFrom(comp, r, n, lo, -1)
  {
    r := s;
    var k := lo;
    while 2 * k + 1 < n
      invariant lo <= k < n <= |r| == |s| && r[n..] == s[n..] && multiset(r) == multiset(s)
      invariant OrderedFrom(comp, r, n, lo, k) && Grandchildren(comp, r, n, lo, k)
      decreases n - k
    {
      var child := GreaterChild(r, comp, k, n);
      if !comp(r[k], r[child]) {
        InPlace(comp, r, n, lo, k, child);
        return;
      }
      SwapDown(comp, r, n, lo, k, child);
      r := Swapped(r, k, child);
      k := child;
    }
    assert forall i | 0 < i < n :: Parent(i) != k;
  }

  /** The greater child is not greater than element `k`. */
  lemma InPlace<E(!new)>(comp: (E, E) -> bool, s: seq<E>, n: nat, lo: nat, k: nat, child: nat)
    requires StrictWeak(comp) && k < child < n <= |s| && OrderedFrom(comp, s, n, lo, k) && !comp(s[k], s[child])
    requires forall i | 0 < i < n && Parent(i) == k :: !comp(s[child], s[i])
    ensures OrderedFrom(comp, s, n, lo, -1)
  {
    forall i | 0 < i < n && lo <= Parent(i)
      ensures InOrder(comp, s, i)
    {
      if Parent(i) == k {
        assert !comp(s[child], s[i]);
      }
    }
  }

  /** Element `k` changes places with its greater child. */
  lemma SwapDown<E(!new)>(comp: (E, E) -> bool, s: seq<E>, n: nat, lo: nat, k: nat, child: nat)
    requires StrictWeak(comp) && lo <= k < child < n <= |s| && Parent(child) == k
    requires OrderedFrom(comp, s, n, lo, k) && Grandchildren(comp, s, n, lo, k) && comp(s[k], s[child])
    requires forall i | 0 < i < n && Parent(i) == k :: !comp(s[child], s[i])
    ensures var r := Swapped(s, k, child);
            OrderedFrom(comp, r, n, lo, child) && Grandchildren(comp, r, n, lo, child)
  {
    var r := Swapped(s, k, child);
    forall i | 0 < i < n && lo <= Parent(i) != child
      ensures InOrder(comp, r, i)
    {
      if i == k || i == child || Parent(i) == k {
      } else {
        assert InOrder(comp, s, i);
      }
    }
    forall i | 0 < i < n && Parent(i) == child
      ensures !comp(r[Parent(child)], r[i])
    {
      assert InOrder(comp, s, i);
    }
  }

  /** Exchanges the ends and restores the order of all but the last. */
  method PopHeap<E(!new)>(s: seq<E>, comp: (E, E) -> bool) returns (r: seq<E>)
    requires |s| > 0 && StrictWeak(comp) && IsHeap(comp, s)
    ensures |r| == |s| && multiset(r) == multiset(s) && r[|s| - 1] == s[0]
    ensures IsHeap(comp, r[..|s| - 1])
  {
    r := Swapped(s, 0, |s| - 1);
    if |s| > 1 {
      ghost var t, n := r, |s| - 1;
      forall i | 0 < i < n && 1 <= Parent(i)
        ensures InOrder(comp, t, i)
      {
        assert InOrder(comp, s, i);
      }
      r := SiftDown(r, comp, 0, |s| - 1);
      assert r[n..][0] == t[n..][0];
      forall i | 0 < i < n
        ensures InOrder(comp, r[..n], i)
      {
        assert InOrder(comp, r, i);
      }
    }
  }

  method MakeHeap<E(!new)>(s: seq<E>, comp: (E, E) -> bool) returns (r: seq<E>)
    requires StrictWeak(comp)
    ensures IsHeap(comp, r) && multiset(r) == multiset(s)
  {
    r := s;
    var k := |s| / 2;
    while k > 0
      invariant 0 <= k <= |r| == |s| && multiset(r) == multiset(s)
      invariant OrderedFrom(comp, r, |r|, k, -1)
    {
      k := k - 1;
      r := SiftDown(r, comp, k, |r|);
    }
  }

  /** `eraseRemove`: every element equal to `x` goes. */
  function Without<E(==)>(s: seq<E>, x: E): (r: seq<E>)
    ensures multiset(r) == multiset(s)[x := 0]
  {
    if s == [] then []
    else
      assert s == s[..|s| - 1] + [s[|s| - 1]];
      var front := Without(s[..|s| - 1], x);
      if s[|s| - 1] == x then front else front + [s[|s| - 1]]
  }

  /** `RCF::Heap`. */
  class Heap<E(==, !new)> {
    var comp: (E, E) -> bool
    var store: seq<E>

    ghost predicate Valid()
      reads this
    {
      StrictWeak(comp) && IsHeap(comp, store)
    }

    constructor (comp: (E, E) -> bool)
      ensures this.comp == comp && store == []
    {
      this.comp, store := comp, [];
    }

    method Add(element: E)
      requires Valid()
      modifies this`store
      ensures Valid() && multiset(store) == old(multiset(store)) + multiset{element}
    {
      store := store + [element];
      assert store[..|store| - 1] == old(store);
      store := PushHeap(store, comp);
    }

    /** Takes out every element equal to `element` and rebuilds the heap, whatever
        the order was. */
    method Remove(element: E)
      requires StrictWeak(comp)
      modifies this`store
      ensures Valid() && multiset(store) == old(multiset(store))[element := 0]
    {
      store := Without(store, element);
      store := MakeHeap(store, comp);
    }

    method Top() returns (element: E)
      requires store != []
      ensures element == store[0]
      ensures Valid() ==> forall e | e in store :: !comp(element, e)
    {
      element := store[0];
      if Valid() {
        forall e | e in store
          ensures !comp(element, e)
        {
          var i :| 0 <= i < |store| && store[i] == e;
          TopIsGreatest(comp, store, i);
        }
      }
    }

    method Pop()
      requires Valid() && store != []
      modifies this`store
      ensures Valid() && multiset(store) == old(multiset(store)) - multiset{old(store[0])}
    {
      var s := PopHeap(store, comp);
      assert s == s[..|s| - 1] + [s[|s| - 1]];
      store := s[..|s| - 1];
    }

    method Clear()
      modifies this`store
      ensures store == []
    {
      store := [];
    }

    /** Without `reorder` the elements stay where they are. */
    method SetCompare(comp: (E, E) -> bool, reorder: bool)
      requires StrictWeak(comp)
      modifies this
      ensures this.comp == comp && multiset(store) == old(multiset(store))
      ensures if reorder then Valid() else store == old(store)
    {
      this.comp := comp;
      if reorder {
        store := MakeHeap(store, comp);
      }
    }
  }
}
