/**
  The two array-backed containers of the data-structures file: a FIFO queue
  (the work list of every breadth-first search) and a LIFO stack. Both keep
  their elements in one `items` sequence that the methods reassign; an empty
  container answers `None` where the source answers `undefined`.
 */
module WorkQueues {
  import opened Wrappers

  class Queue<T> {
    /** Oldest element first. */
    var items: seq<T>

    constructor ()
      ensures items == []
    {
      items := [];
    }

    /** `enqueue`: the new element goes to the back. */
    method Enqueue(x: T)
      modifies this
      ensures items == old(items) + [x]
    {
      items := items + [x];
    }

    /** `dequeue`: removes and returns the oldest element (`shift`). */
    method Dequeue() returns (x: Option<T>)
      modifies this
      ensures old(items) == [] ==> x == None && items == []
      ensures old(items) != [] ==> x == Some(old(items)[0]) && items == old(items)[1..]
      ensures old(items) == (if x.Some? then [x.value] else []) + items
    {
      if items == [] {
        x := None;
      } else {
        x := Some(items[0]);
        items := items[1..];
      }
    }

    /** `peek`: the oldest element, left in place. */
    method Peek() returns (x: Option<T>)
      ensures items == [] <==> x == None
      ensures x.Some? ==> x.value == items[0]
    {
      x := if items == [] then None else Some(items[0]);
    }

    method IsEmpty() returns (empty: bool)
      ensures empty <==> items == []
    {
      empty := |items| == 0;
    }

    method Size() returns (n: nat)
      ensures n == |items|
    {
      n := |items|;
    }

    method Clear()
      modifies this
      ensures items == []
    {
      items := [];
    }
  }

  class Stack<T> {
    /** Oldest element first; the top is the last element. */
    var items: seq<T>

    constructor ()
      ensures items == []
    {
      items := [];
    }

    /** `push`: the new element becomes the top. */
    method Push(x: T)
      modifies this
      ensures items == old(items) + [x]
    {
      items := items + [x];
    }

    /** `pop`: removes and returns the newest element. */
    method Pop() returns (x: Option<T>)
      modifies this
      ensures old(items) == [] ==> x == None && items == []
      ensures old(items) != [] ==> x == Some(old(items)[|old(items)| - 1]) && items == old(items)[..|old(items)| - 1]
      ensures old(items) == items + (if x.Some? then [x.value] else [])
    {
      if items == [] {
        x := None;
      } else {
        x := Some(items[|items| - 1]);
        items := items[..|items| - 1];
      }
    }

    /** `peek`: the top element, left in place (`items[length - 1]`). */
    method Peek() returns (x: Option<T>)
      ensures items == [] <==> x == None
      ensures x.Some? ==> x.value == items[|items| - 1]
    {
      x := if items == [] then None else Some(items[|items| - 1]);
    }

    method IsEmpty() returns (empty: bool)
      ensures empty <==> items == []
    {
      empty := |items| == 0;
    }

    method Size() returns (n: nat)
      ensures n == |items|
    {
      n := |items|;
    }

    method Clear()
      modifies this
      ensures items == []
    {
      items := [];
    }
  }
}
