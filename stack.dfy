/** The LIFO `Stack<T>` of the playground: a thin wrapper over a growable array. */
module Stacks {
  import opened Wrappers

  class Stack<T> {
    /** The backing array; its last element is the top of the stack. */
    var elements: seq<T>

    constructor ()
      ensures elements == []
    {
      elements := [];
    }

    function IsEmpty(): (b: bool)
      reads this
      ensures b <==> |elements| == 0
    {
      |elements| == 0
    }

    function Count(): (n: nat)
      reads this
      ensures n == |elements|
    {
      |elements|
    }

    /** The most recently pushed element, or None on an empty stack. */
    function Top(): (r: Option<T>)
      reads this
      ensures r.None? <==> IsEmpty()
      ensures r.Some? ==> r.value == elements[|elements| - 1]
    {
      if |elements| == 0 then None else Some(elements[|elements| - 1])
    }

    method Push(element: T)
      modifies this
      ensures elements == old(elements) + [element]
      ensures Top() == Some(element) && Count() == old(Count()) + 1
    {
      elements := elements + [element];
    }

    /** Removes and returns the most recently pushed element; None exactly when the stack is empty. */
    method Pop() returns (r: Option<T>)
      modifies this
      ensures r == old(Top())
      ensures old(IsEmpty()) ==> elements == old(elements)
      ensures !old(IsEmpty()) ==> elements == old(elements)[..|old(elements)| - 1]
    {
      if |elements| == 0 {
        r := None;
      } else {
        r := Some(elements[|elements| - 1]);
        elements := elements[..|elements| - 1];
      }
    }
  }

  /** Pushing and then popping hands back the pushed element and restores the stack (LIFO). */
  method PushThenPop<T>(s: Stack<T>, x: T) returns (r: Option<T>)
    modifies s
    ensures r == Some(x) && s.elements == old(s.elements)
  {
    s.Push(x);
    r := s.Pop();
  }
}
