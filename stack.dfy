/** The LIFO stack of stack.h: a private vector `list` and the index `top_` of
    its last element (here `topIndex`), which is -1 for an empty stack. */
module Stacks {
  import opened Errors

  class Stack<T> {
    var list: seq<T>
    var topIndex: int

    /** The representation invariant: topIndex is the index of the last element. */
    ghost predicate Valid()
      reads this
    {
      topIndex + 1 == |list|
    }

    constructor ()
      ensures Valid()
      ensures list == [] && topIndex == -1
    {
      list := [];
      topIndex := -1;
    }

    function Empty(): (r: bool)
      reads this
      requires Valid()
      ensures r <==> list == []
    {
      topIndex == -1
    }

    function Size(): (r: nat)
      reads this
      requires Valid()
      ensures r == |list|
    {
      topIndex + 1
    }

    /** The last element pushed, or Underflow when there is none. */
    function Top(): (r: Result<T>)
      reads this
      requires Valid()
      ensures r.Err? <==> list == []
      ensures r.Err? ==> r.error == Underflow
      ensures r.Ok? ==> r.value == list[|list| - 1]
    {
      if Size() == 0 then Err(Underflow) else Ok(list[topIndex])
    }

    method Push(item: T)
      requires Valid()
      modifies this
      ensures Valid()
      ensures list == old(list) + [item]
      ensures topIndex == old(topIndex) + 1
      ensures Top() == Ok(item)
    {
      list := list + [item];
      topIndex := topIndex + 1;
    }

    /** Removes the last element; an empty stack reports Underflow and is unchanged. */
    method Pop() returns (r: Outcome)
      requires Valid()
      modifies this
      ensures Valid()
      ensures old(list) == [] ==> r == Fail(Underflow) && list == old(list) && topIndex == old(topIndex)
      ensures old(list) != [] ==> r == Pass && list == old(list)[..|old(list)| - 1]
    {
      if Size() == 0 {
        return Fail(Underflow);
      }
      list := list[..|list| - 1];
      topIndex := topIndex - 1;
      r := Pass;
    }
  }

  /** Last in, first out: a push followed by a pop restores the stack. */
  method PushThenPop<T>(s: Stack<T>, item: T) returns (r: Outcome)
    requires s.Valid()
    modifies s
    ensures s.Valid() && r == Pass
    ensures s.list == old(s.list) && s.topIndex == old(s.topIndex)
  {
    s.Push(item);
    r := s.Pop();
  }
}
