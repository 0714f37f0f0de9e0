/** The m-ary priority heap of heap.h. The tree is stored breadth first in a
    sequence: the children of node k are k*m+1 .. k*m+m and the parent of a
    node i > 0 is (i-1)/m. `less(a, b)` means "a has priority over b". */
module Heaps {
  import opened Errors
  import opened Orders

  /** The parent index of node i, as computed at heap.h:171 and heap.h:180. */
  function Parent(i: nat, m: nat): (p: nat)
    requires i > 0 && m >= 1
    ensures p < i
  {
    DivBelow(i - 1, m);
    (i - 1) / m
  }

  lemma DivBelow(n: nat, m: nat)
    requires m >= 1
    ensures n / m <= n
  {
    var q, r := n / m, n % m;
    MulMonotone(1, m, q);
    assert n == q * m + r;
  }

  /** The children of node k are exactly the nodes k*m+1 .. k*m+m. */
  lemma {:induction false} ParentRange(i: nat, k: nat, m: nat)
    requires i > 0 && m >= 1
    ensures Parent(i, m) == k <==> k * m + 1 <= i <= k * m + m
  {
    var q, r := (i - 1) / m, (i - 1) % m;
    assert i - 1 == q * m + r && 0 <= r < m;
    if q < k {
      MulMonotone(q + 1, k, m);
      assert (q + 1) * m == q * m + m;
    } else if q > k {
      MulMonotone(k + 1, q, m);
      assert (k + 1) * m == k * m + m;
    }
  }

  lemma MulMonotone(a: nat, b: nat, m: nat)
    requires a <= b
    ensures a * m <= b * m
  {
  }

  /** A node's first child lies after it. */
  lemma FirstChildAbove(k: nat, m: nat)
    requires m >= 1
    ensures k * m + 1 > k
  {
    MulMonotone(1, m, k);
  }

  /** The heap property: no node has priority over its parent. */
  ghost predicate HeapOrdered<T>(s: seq<T>, m: nat, less: (T, T) -> bool) {
    m >= 1 && forall i {:trigger Parent(i, m)} :: 0 < i < |s| ==> !less(s[i], s[Parent(i, m)])
  }

  /** What holds while trickleUp_ moves the element at k towards the root:
      every edge but the one from k to its parent is ordered, and the
      children of k do not have priority over k's parent. */
  ghost predicate OrderedExceptAbove<T>(s: seq<T>, k: nat, m: nat, less: (T, T) -> bool) {
    && m >= 1
    && (forall i {:trigger Parent(i, m)} :: 0 < i < |s| && i != k ==> !less(s[i], s[Parent(i, m)]))
    && (0 < k < |s| ==> forall i :: 0 < i < |s| && Parent(i, m) == k ==> !less(s[i], s[Parent(k, m)]))
  }

  /** What holds while heapify_ moves the element at k towards the leaves:
      every edge but those from k to its children is ordered, and the
      children of k do not have priority over k's parent. */
  ghost predicate OrderedExceptBelow<T>(s: seq<T>, k: nat, m: nat, less: (T, T) -> bool) {
    && m >= 1
    && (forall i {:trigger Parent(i, m)} :: 0 < i < |s| && Parent(i, m) != k ==> !less(s[i], s[Parent(i, m)]))
    && (0 < k < |s| ==> forall i :: 0 < i < |s| && Parent(i, m) == k ==> !less(s[i], s[Parent(k, m)]))
  }

  /** The three-assignment swap of heap.h:175-177, heap.h:135-137 and heap.h:216-218. */
  function Swap<T>(s: seq<T>, i: nat, j: nat): (r: seq<T>)
    requires i < |s| && j < |s|
    ensures |r| == |s| && r[i] == s[j] && r[j] == s[i]
    ensures forall k :: 0 <= k < |s| && k != i && k != j ==> r[k] == s[k]
    ensures multiset(r) == multiset(s)
  {
    s[i := s[j]][j := s[i]]
  }

  /** No element of a heap has priority over its root. */
  lemma {:induction false} TopIsBest<T(!new)>(s: seq<T>, m: nat, less: (T, T) -> bool)
    requires StrictWeakOrder(less) && HeapOrdered(s, m, less)
    ensures forall i :: 0 <= i < |s| ==> !less(s[i], s[0])
  {
    forall i | 0 <= i < |s|
      ensures !less(s[i], s[0])
    {
      RootAbove(s, m, less, i);
    }
  }

  lemma {:induction false} RootAbove<T(!new)>(s: seq<T>, m: nat, less: (T, T) -> bool, i: nat)
    requires StrictWeakOrder(less) && HeapOrdered(s, m, less) && i < |s|
    ensures !less(s[i], s[0])
    decreases i
  {
    if i > 0 {
      var p := Parent(i, m);
      RootAbove(s, m, less, p);
      assert !less(s[i], s[p]);
    }
  }

  /** Appending a leaf to a heap sets up trickleUp_ at the new leaf (heap.h:95-99). */
  lemma AppendSetsUpTrickle<T>(s: seq<T>, x: T, m: nat, less: (T, T) -> bool)
    requires HeapOrdered(s, m, less)
    ensures OrderedExceptAbove(s + [x], |s|, m, less)
  {
  }

  /** One swap of trickleUp_ (heap.h:173-180) moves the exception one level up. */
  lemma SiftUpStep<T(!new)>(s: seq<T>, k: nat, m: nat, less: (T, T) -> bool)
    requires StrictWeakOrder(less) && 0 < k < |s|
    requires OrderedExceptAbove(s, k, m, less)
    requires less(s[k], s[Parent(k, m)])
    ensures OrderedExceptAbove(Swap(s, k, Parent(k, m)), Parent(k, m), m, less)
  {
  }

  /** trickleUp_ may stop at the root or where the element no longer has priority
      over its parent: the sequence is then a heap. */
  lemma SiftUpDone<T>(s: seq<T>, k: nat, m: nat, less: (T, T) -> bool)
    requires k < |s| && OrderedExceptAbove(s, k, m, less)
    requires k == 0 || !less(s[k], s[Parent(k, m)])
    ensures HeapOrdered(s, m, less)
  {
  }

  /** pop's move of the last element to the root (heap.h:135-139) sets up
      heapify_ at the root. */
  lemma RootReplacedOrdered<T>(s: seq<T>, t: seq<T>, m: nat, less: (T, T) -> bool)
    requires HeapOrdered(s, m, less) && |t| <= |s|
    requires forall i :: 0 < i < |t| ==> t[i] == s[i]
    ensures OrderedExceptBelow(t, 0, m, less)
  {
  }

  /** pop_back removes exactly the last element. */
  lemma DropLast<T>(u: seq<T>)
    requires |u| > 0
    ensures multiset(u[..|u| - 1]) == multiset(u) - multiset{u[|u| - 1]}
  {
    assert u == u[..|u| - 1] + [u[|u| - 1]];
  }

  /** One swap of heapify_ (heap.h:214-220) with a best child e moves the
      exception one level down. */
  lemma SiftDownStep<T(!new)>(s: seq<T>, k: nat, e: nat, m: nat, less: (T, T) -> bool)
    requires StrictWeakOrder(less) && 0 < e < |s| && k < |s| && m >= 1 && Parent(e, m) == k
    requires OrderedExceptBelow(s, k, m, less)
    requires forall c :: 0 < c < |s| && Parent(c, m) == k ==> !less(s[c], s[e])
    requires less(s[e], s[k])
    ensures OrderedExceptBelow(Swap(s, k, e), e, m, less)
  {
  }

  /** What is left after removing the root of a heap has no priority over it. */
  lemma RemainingBelowTop<T(!new)>(s: seq<T>, t: seq<T>, m: nat, less: (T, T) -> bool)
    requires StrictWeakOrder(less) && HeapOrdered(s, m, less) && |s| > 0
    requires multiset(t) == multiset(s) - multiset{s[0]}
    ensures forall x :: x in multiset(t) ==> !less(x, s[0])
  {
    TopIsBest(s, m, less);
    forall x | x in multiset(t)
      ensures !less(x, s[0])
    {
      assert x in multiset(s);
    }
  }

  /** The children of node k below n are the indices k*m+1 .. k*m+m below n. */
  lemma ChildrenRange(k: nat, m: nat, n: nat)
    requires m >= 1
    ensures forall c :: 0 < c < n ==> (Parent(c, m) == k <==> k * m + 1 <= c <= k * m + m)
  {
    forall c | 0 < c < n
      ensures Parent(c, m) == k <==> k * m + 1 <= c <= k * m + m
    {
      ParentRange(c, k, m);
    }
  }

  /** A node whose first child would lie past the end has no children (heap.h:193). */
  lemma NoChildren<T>(s: seq<T>, k: nat, m: nat)
    requires m >= 1 && k * m + 1 >= |s|
    ensures forall c :: 0 < c < |s| ==> Parent(c, m) != k
  {
  }

  /** heapify_ may stop where no child has priority over node k: the sequence
      is then a heap. */
  lemma SiftDownDone<T>(s: seq<T>, k: nat, m: nat, less: (T, T) -> bool)
    requires OrderedExceptBelow(s, k, m, less)
    requires forall c :: 0 < c < |s| && Parent(c, m) == k ==> !less(s[c], s[k])
    ensures HeapOrdered(s, m, less)
  {
  }

  /** heapify_'s short-cut (heap.h:210): when node k equals its best child e,
      e has no priority over k, so stopping there leaves a heap. `==` here is
      Dafny equality, under which equal elements are unordered. */
  lemma EqualChildStops<T(!new)>(s: seq<T>, k: nat, e: nat, m: nat, less: (T, T) -> bool)
    requires StrictWeakOrder(less) && k < e < |s| && s[k] == s[e]
    requires OrderedExceptBelow(s, k, m, less)
    requires forall c :: 0 < c < |s| && Parent(c, m) == k ==> !less(s[c], s[e])
    ensures !less(s[e], s[k])
    ensures HeapOrdered(s, m, less)
  {
  }

  /** The priority heap of heap.h. `m` is m_ary_, `compare` is compare_ and
      `items` is the vector items_. */
  class Heap<T(==, !new)> {
    const m: nat
    const compare: (T, T) -> bool
    var items: seq<T>

    /** Every heap the public operations leave behind is a valid heap. */
    ghost predicate Valid()
      reads this
    {
      m >= 1 && StrictWeakOrder(compare) && HeapOrdered(items, m, compare)
    }

    /** The stored elements, counted with multiplicity. */
    ghost function Contents(): multiset<T>
      reads this
    {
      multiset(items)
    }

    /** heap.h:78-83. The arity is not checked by the constructor; the
        operations divide by it, so it must be at least 1. */
    constructor (m: int, c: (T, T) -> bool)
      requires m >= 1 && StrictWeakOrder(c)
      ensures Valid()
      ensures this.m == m && compare == c && items == []
    {
      this.m := m;
      compare := c;
      items := [];
    }

    function Empty(): (r: bool)
      reads this
      ensures r <==> Contents() == multiset{}
    {
      |items| == 0
    }

    function Size(): (r: nat)
      reads this
      ensures r == |Contents()|
    {
      |items|
    }

    /** The root, which no stored element has priority over, or Underflow. */
    function Top(): (r: Result<T>)
      reads this
      requires Valid()
      ensures r.Err? <==> Contents() == multiset{}
      ensures r.Err? ==> r.error == Underflow
      ensures r.Ok? ==> r.value == items[0] && r.value in Contents()
      ensures r.Ok? ==> forall x :: x in Contents() ==> !compare(x, r.value)
    {
      if Empty() then
        Err(Underflow)
      else
        TopIsBest(items, m, compare);
        Ok(items[0])
    }

    method Push(item: T)
      requires Valid()
      modifies this
      ensures Valid()
      ensures Contents() == old(Contents()) + multiset{item}
      ensures |items| == old(|items|) + 1
    {
      AppendSetsUpTrickle(items, item, m, compare);
      items := items + [item];
      if |items| > 1 {
        TrickleUp(|items| - 1);
      }
    }

    /** Removes the root; the elements left have no priority over it. An
        empty heap reports Underflow and is unchanged. */
    method Pop() returns (r: Outcome)
      requires Valid()
      modifies this
      ensures Valid()
      ensures old(|items|) == 0 ==> r == Fail(Underflow) && items == old(items)
      ensures old(|items|) > 0 ==> r == Pass && |items| == old(|items|) - 1
      ensures old(|items|) > 0 ==> Contents() == old(Contents()) - multiset{old(items[0])}
      ensures old(|items|) > 0 ==> forall x :: x in Contents() ==> !compare(x, old(items[0]))
    {
      if Empty() {
        return Fail(Underflow);
      }
      RemoveRoot();
      r := Pass;
    }

    /** heap.h:134-144: moves the last element to the root, drops the old root
        and lets the new root sink. */
    method RemoveRoot()
      requires Valid() && |items| > 0
      modifies this
      ensures Valid()
      ensures |items| == old(|items|) - 1
      ensures Contents() == old(Contents()) - multiset{old(items[0])}
      ensures forall x :: x in Contents() ==> !compare(x, old(items[0]))
    {
      ghost var before := items;
      var last := |items| - 1;
      items := Swap(items, 0, last);
      DropLast(items);
      items := items[..last];
      RootReplacedOrdered(before, items, m, compare);
      if |items| != 1 {
        Heapify(0);
      } else {
        assert HeapOrdered(items, m, compare);
      }
      RemainingBelowTop(before, items, m, compare);
    }

    /** heap.h:168-182: swaps the element at idx with its parent while it has
        priority over that parent. At idx == 0 the unsigned (idx - 1) / m wraps
        to (2^64 - 1) / m, past the end of the heap, so the guard
        `parent < items_.size()` ends the loop at the root; for idx > 0 that
        guard always holds. */
    method TrickleUp(idx: nat)
      requires StrictWeakOrder(compare) && idx < |items|
      requires OrderedExceptAbove(items, idx, m, compare)
      modifies this
      ensures HeapOrdered(items, m, compare)
      ensures multiset(items) == old(multiset(items)) && |items| == old(|items|)
    {
      var k: nat := idx;
      while k > 0 && compare(items[k], items[Parent(k, m)])
        invariant k < |items| && |items| == old(|items|)
        invariant OrderedExceptAbove(items, k, m, compare)
        invariant multiset(items) == old(multiset(items))
        decreases k
      {
        var parent := Parent(k, m);
        SiftUpStep(items, k, m, compare);
        items := Swap(items, k, parent);
        k := parent;
      }
      SiftUpDone(items, k, m, compare);
    }

    /** heap.h:197-207: the child of idx with the highest priority; among
        equally good children, the one with the lowest index. */
    method ExtremeChild(idx: nat) returns (best: nat)
      requires m >= 1 && StrictWeakOrder(compare) && idx * m + 1 < |items|
      ensures 0 < best < |items| && Parent(best, m) == idx
      ensures forall c :: 0 < c < |items| && Parent(c, m) == idx ==> !compare(items[c], items[best])
      ensures forall c :: 0 < c < best && Parent(c, m) == idx ==> compare(items[best], items[c])
    {
      var firstChild := idx * m + 1;
      best := firstChild;
      for i := 0 to m
        invariant firstChild <= best < |items|
        invariant best == firstChild || best < firstChild + i
        invariant forall c :: firstChild <= c < firstChild + i && c < |items| ==> !compare(items[c], items[best])
        invariant forall c :: firstChild <= c < best ==> compare(items[best], items[c])
      {
        if firstChild + i < |items| {
          var currChild := firstChild + i;
          if compare(items[currChild], items[best]) {
            forall c | firstChild <= c < currChild
              ensures compare(items[currChild], items[c])
            {
              if c < best {
                assert compare(items[best], items[c]);
              } else if c > best {
                assert !compare(items[c], items[best]);
              }
            }
            best := currChild;
          }
        }
      }
      ChildrenRange(idx, m, |items|);
    }

    /** heap.h:186-222: swaps the element at idx with its best child while that
        child has priority over it. */
    method Heapify(idx: nat)
      requires StrictWeakOrder(compare)
      requires OrderedExceptBelow(items, idx, m, compare)
      modifies this
      ensures HeapOrdered(items, m, compare)
      ensures multiset(items) == old(multiset(items)) && |items| == old(|items|)
      decreases |items| - idx
    {
      var firstChild := idx * m + 1;
      if firstChild >= |items| {
        NoChildren(items, idx, m);
        SiftDownDone(items, idx, m, compare);
        return;
      }
      FirstChildAbove(idx, m);
      var extremeChild := ExtremeChild(idx);
      if items[idx] == items[extremeChild] {
        EqualChildStops(items, idx, extremeChild, m, compare);
        return;
      }
      if compare(items[extremeChild], items[idx]) {
        SiftDownStep(items, idx, extremeChild, m, compare);
        items := Swap(items, idx, extremeChild);
        Heapify(extremeChild);
      } else {
        SiftDownDone(items, idx, m, compare);
      }
    }
  }

  /** No element of s has priority over an element before it. */
  ghost predicate NonIncreasing<T>(s: seq<T>, less: (T, T) -> bool) {
    forall i, j :: 0 <= i < j < |s| ==> !less(s[j], s[i])
  }

  /** No element of rest has priority over an element of s. */
  ghost predicate Dominates<T>(s: seq<T>, rest: multiset<T>, less: (T, T) -> bool) {
    forall i, x :: 0 <= i < |s| && x in rest ==> !less(x, s[i])
  }

  /** Appending the top of the remaining elements, and removing it from them,
      keeps the drained prefix in non-increasing priority. */
  lemma DrainStep<T>(out: seq<T>, rest: multiset<T>, top: T, after: multiset<T>, less: (T, T) -> bool)
    requires NonIncreasing(out, less) && Dominates(out, rest, less)
    requires top in rest && after == rest - multiset{top}
    requires forall x :: x in after ==> !less(x, top)
    ensures NonIncreasing(out + [top], less) && Dominates(out + [top], after, less)
  {
  }

  /** Repeated top and pop (heap.h:106-145) drain a heap in non-increasing
      priority: no element popped later has priority over one popped earlier. */
  method Drain<T(==, !new)>(h: Heap<T>) returns (out: seq<T>)
    requires h.Valid()
    modifies h
    ensures h.Valid() && h.items == []
    ensures multiset(out) == old(h.Contents())
    ensures NonIncreasing(out, h.compare)
  {
    out := [];
    while !h.Empty()
      invariant h.Valid()
      invariant multiset(out) + h.Contents() == old(h.Contents())
      invariant NonIncreasing(out, h.compare) && Dominates(out, h.Contents(), h.compare)
      decreases |h.items|
    {
      var top := h.Top();
      ghost var before := h.Contents();
      var _ := h.Pop();
      DrainStep(out, before, top.value, h.Contents(), h.compare);
      out := out + [top.value];
    }
  }

  /** The comparator of a max-heap on integers. */
  function Greater(a: int, b: int): bool {
    a > b
  }

  /** Pushes 10, 20, 5, 30 and 15 onto a new max-heap of arity 4. */
  method MaxHeapOfArityFour() returns (h: Heap<int>)
    ensures fresh(h) && h.Valid() && h.compare == Greater
    ensures h.Contents() == multiset{10, 20, 5, 30, 15}
  {
    h := new Heap<int>(4, Greater);
    h.Push(10);
    h.Push(20);
    h.Push(5);
    h.Push(30);
    h.Push(15);
  }

  /** On that heap the top is 30, and after one pop it is 20. */
  method MaxHeapTopAndPop() returns (first: int, second: int)
    ensures first == 30 && second == 20
  {
    var h := MaxHeapOfArityFour();
    var t := h.Top();
    assert 30 in h.Contents();
    first := t.value;
    var _ := h.Pop();
    assert h.Contents() == multiset{10, 20, 5, 15};
    t := h.Top();
    assert 20 in h.Contents();
    second := t.value;
  }
}
