/** llpivot of llrec.cpp: splits a singly linked list of integers into the
    nodes whose value is at most a pivot and the nodes whose value exceeds it,
    keeping their order and relinking the existing nodes. */
module LinkedLists {

  /** The list node of llrec.h: a value and the next node (null at the end).
      llpivot never writes `val`, so it is constant here. */
  class Node {
    const val: int
    var next: Node?
  }

  /** `head` starts the acyclic list whose nodes, in order, are `nodes`. */
  ghost predicate IsList(head: Node?, nodes: seq<Node>)
    reads nodes
    decreases |nodes|
  {
    if nodes == [] then head == null
    else head == nodes[0] && nodes[0] !in nodes[1..] && IsList(nodes[0].next, nodes[1..])
  }

  /** The nodes with value at most the pivot, in their original order. */
  function Smaller(nodes: seq<Node>, pivot: int): seq<Node> {
    if nodes == [] then []
    else (if nodes[0].val <= pivot then [nodes[0]] else []) + Smaller(nodes[1..], pivot)
  }

  /** The nodes with value above the pivot, in their original order. */
  function Larger(nodes: seq<Node>, pivot: int): seq<Node> {
    if nodes == [] then []
    else (if nodes[0].val > pivot then [nodes[0]] else []) + Larger(nodes[1..], pivot)
  }

  /** The values of the nodes, in list order. */
  function Values(nodes: seq<Node>): seq<int> {
    seq(|nodes|, i requires 0 <= i < |nodes| => nodes[i].val)
  }

  /** Every node of `smaller` is at most the pivot, every node of `larger`
      above it (llrec.cpp:22-34). */
  lemma {:induction false} PartitionBounds(nodes: seq<Node>, pivot: int)
    ensures forall n :: n in Smaller(nodes, pivot) ==> n.val <= pivot
    ensures forall n :: n in Larger(nodes, pivot) ==> n.val > pivot
  {
    if nodes != [] {
      PartitionBounds(nodes[1..], pivot);
    }
  }

  /** The two outputs hold exactly the input nodes, each once: no node is
      created or lost, so their lengths add up to the input length. */
  lemma {:induction false} PartitionIsPermutation(nodes: seq<Node>, pivot: int)
    ensures multiset(Smaller(nodes, pivot)) + multiset(Larger(nodes, pivot)) == multiset(nodes)
    ensures |Smaller(nodes, pivot)| + |Larger(nodes, pivot)| == |nodes|
  {
    if nodes != [] {
      PartitionIsPermutation(nodes[1..], pivot);
      assert nodes == [nodes[0]] + nodes[1..];
    }
  }

  /** Both outputs keep the input's order: splitting a list and partitioning
      each part gives the partition of the whole, part after part. */
  lemma {:induction false} PartitionIsStable(a: seq<Node>, b: seq<Node>, pivot: int)
    ensures Smaller(a + b, pivot) == Smaller(a, pivot) + Smaller(b, pivot)
    ensures Larger(a + b, pivot) == Larger(a, pivot) + Larger(b, pivot)
  {
    if a != [] {
      PartitionIsStable(a[1..], b, pivot);
      assert (a + b)[1..] == a[1..] + b;
    } else {
      assert a + b == b;
    }
  }

  /** The values in `smaller` are the input's values at most the pivot, in
      input order; those in `larger` the values above it. */
  lemma {:induction false} PartitionValues(nodes: seq<Node>, pivot: int)
    ensures Values(Smaller(nodes, pivot)) == FilterAtMost(Values(nodes), pivot)
    ensures Values(Larger(nodes, pivot)) == FilterAbove(Values(nodes), pivot)
  {
    if nodes != [] {
      PartitionValues(nodes[1..], pivot);
      assert Values(nodes)[1..] == Values(nodes[1..]);
      ValuesAppend(if nodes[0].val <= pivot then [nodes[0]] else [], Smaller(nodes[1..], pivot));
      ValuesAppend(if nodes[0].val > pivot then [nodes[0]] else [], Larger(nodes[1..], pivot));
    }
  }

  lemma ValuesAppend(a: seq<Node>, b: seq<Node>)
    ensures Values(a + b) == Values(a) + Values(b)
  {
  }

  function FilterAtMost(vs: seq<int>, pivot: int): seq<int> {
    if vs == [] then [] else (if vs[0] <= pivot then [vs[0]] else []) + FilterAtMost(vs[1..], pivot)
  }

  function FilterAbove(vs: seq<int>, pivot: int): seq<int> {
    if vs == [] then [] else (if vs[0] > pivot then [vs[0]] else []) + FilterAbove(vs[1..], pivot)
  }

  /** Every node of the partition comes from the input. */
  lemma {:induction false} PartitionFromInput(nodes: seq<Node>, pivot: int)
    ensures forall n :: n in Smaller(nodes, pivot) ==> n in nodes
    ensures forall n :: n in Larger(nodes, pivot) ==> n in nodes
  {
    PartitionIsPermutation(nodes, pivot);
    forall n | n in Smaller(nodes, pivot)
      ensures n in nodes
    {
      assert n in multiset(Smaller(nodes, pivot)) + multiset(Larger(nodes, pivot));
      assert n in multiset(nodes);
    }
    forall n | n in Larger(nodes, pivot)
      ensures n in nodes
    {
      assert n in multiset(Smaller(nodes, pivot)) + multiset(Larger(nodes, pivot));
      assert n in multiset(nodes);
    }
  }

  /** Linking a new node in front of a list (llrec.cpp:23-24 and 31-32). */
  lemma Prepend(node: Node, head: Node?, nodes: seq<Node>)
    requires IsList(head, nodes) && node !in nodes && node.next == head
    ensures IsList(node, [node] + nodes)
  {
  }

  /** llrec.cpp:5-35. `head` is the pointer passed by reference; its new
      value (always null) is returned as `headAfter`, and the caller stores it
      where `head` came from. Whatever `smaller` and `larger` held before is
      not read. Only the `next` fields of the input nodes are written. */
  method LLPivot(head: Node?, ghost nodes: seq<Node>, pivot: int)
    returns (headAfter: Node?, smaller: Node?, larger: Node?, ghost small: seq<Node>, ghost large: seq<Node>)
    requires IsList(head, nodes)
    modifies nodes
    ensures headAfter == null
    ensures small == Smaller(nodes, pivot) && IsList(smaller, small)
    ensures large == Larger(nodes, pivot) && IsList(larger, large)
    decreases |nodes|
  {
    smaller := null;
    larger := null;
    small, large := [], [];
    if head == null {
      return null, smaller, larger, small, large;
    }
    var rest;
    rest, smaller, larger, small, large := LLPivot(head.next, nodes[1..], pivot);
    // The recursive call nulls head->next through its reference (here: rest is
    // null); llrec.cpp:23 and :31 overwrite that field at once, so the write
    // is folded into the one below.
    assert rest == null;
    PartitionFromInput(nodes[1..], pivot);
    assert head !in small && head !in large;
    if head.val <= pivot {
      head.next := smaller;
      Prepend(head, smaller, small);
      smaller := head;
      small := [head] + small;
    } else {
      head.next := larger;
      Prepend(head, larger, large);
      larger := head;
      large := [head] + large;
    }
    headAfter := null;
  }
}
