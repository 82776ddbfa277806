/** b2GrowableStack: a LIFO stack that starts in an inline array and doubles on the heap. */
module GrowableStack {

  class GrowableStack<T(0)> {
    var stack: array<T>
    var count: nat

    ghost predicate Valid()
      reads this, stack
    {
      count <= stack.Length && 0 < stack.Length
    }

    /** Bottom to top. */
    ghost function Contents(): seq<T>
      reads this, stack
      requires Valid()
    {
      stack[..count]
    }

    constructor (capacity: nat)
      requires capacity > 0
      ensures Valid() && fresh(stack) && Contents() == [] && stack.Length == capacity
    {
      stack := new T[capacity];
      count := 0;
    }

    method Push(element: T)
      requires Valid()
      modifies this, stack
      ensures Valid() && (stack == old(stack) || fresh(stack))
      ensures Contents() == old(Contents()) + [element]
      ensures stack.Length == if old(count) == old(stack.Length) then 2 * old(stack.Length) else old(stack.Length)
    {
      if count == stack.Length {
        var grown := new T[stack.Length * 2];
        forall i | 0 <= i < count {
          grown[i] := stack[i];
        }
        stack := grown;
      }
      stack[count] := element;
      count := count + 1;
    }

    method Pop() returns (top: T)
      requires Valid() && count > 0
      modifies this`count
      ensures Valid() && old(Contents()) == Contents() + [top]
    {
      count := count - 1;
      top := stack[count];
    }

    function GetCount(): (n: nat)
      requires Valid()
      reads this, stack
      ensures n == |Contents()|
    {
      count
    }
  }
}
