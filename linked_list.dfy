/**
  The singly linked list of the data-structures file: nodes on the heap,
  relinked in place by `append`, `prepend` and `remove`, with a `size`
  counter kept beside them. The list is specified by the ghost sequence of
  its nodes and the ghost sequence of their data.
 */
module LinkedLists {
  import opened Wrappers

  /** `s` without its first occurrence of `x`, or `s` itself when `x` does not occur. */
  function RemoveFirst<T(==)>(s: seq<T>, x: T): seq<T>
  {
    if s == [] then []
    else if s[0] == x then s[1..]
    else [s[0]] + RemoveFirst(s[1..], x)
  }

  /** Removing the first occurrence deletes exactly one element when there is one, and none otherwise. */
  lemma {:induction false} RemoveFirstCounts<T>(s: seq<T>, x: T)
    ensures x in s ==> |RemoveFirst(s, x)| == |s| - 1
    ensures x !in s ==> RemoveFirst(s, x) == s
    ensures multiset(RemoveFirst(s, x)) == multiset(s) - multiset{x}
  {
    if s != [] {
      RemoveFirstCounts(s[1..], x);
      assert s == [s[0]] + s[1..];
    }
  }

  /** Removing the first occurrence, at index `k`, splices the sequence around `k`. */
  lemma {:induction false} RemoveFirstAt<T>(s: seq<T>, x: T, k: nat)
    requires k < |s| && s[k] == x && x !in s[..k]
    ensures RemoveFirst(s, x) == s[..k] + s[k + 1..]
  {
    if k > 0 {
      assert s[1..][..k - 1] == s[1..k];
      assert x !in s[1..][..k - 1];
      RemoveFirstAt(s[1..], x, k - 1);
      assert s[..k] == [s[0]] + s[1..][..k - 1];
    }
  }

  class ListNode<T> {
    var data: T
    var next: ListNode?<T>

    constructor(data: T)
      ensures this.data == data && next == null
    {
      this.data := data;
      this.next := null;
    }
  }

  class LinkedList<T(==)> {
    var head: ListNode?<T>
    var size: nat
    /** The nodes reachable from `head`, in order. */
    ghost var nodes: seq<ListNode<T>>
    /** Their data: what `toArray` returns. */
    ghost var contents: seq<T>
    ghost var Repr: set<object>

    ghost predicate Valid()
      reads this, Repr
    {
      && this in Repr
      && (forall i :: 0 <= i < |nodes| ==> nodes[i] in Repr)
      && head == (if nodes == [] then null else nodes[0])
      && (forall i :: 0 <= i < |nodes| - 1 ==> nodes[i].next == nodes[i + 1])
      && (nodes != [] ==> nodes[|nodes| - 1].next == null)
      && (forall i, j :: 0 <= i < j < |nodes| ==> nodes[i] != nodes[j])
      && |contents| == |nodes|
      && (forall i :: 0 <= i < |nodes| ==> nodes[i].data == contents[i])
      && size == |nodes|
    }

    constructor()
      ensures Valid() && fresh(Repr)
      ensures contents == []
    {
      head := null;
      size := 0;
      nodes := [];
      contents := [];
      Repr := {this};
    }

    /** `append`: walks to the last node and links a new node after it. */
    method Append(data: T)
      requires Valid()
      modifies Repr
      ensures Valid() && fresh(Repr - old(Repr))
      ensures contents == old(contents) + [data]
    {
      var newNode := new ListNode(data);
      if head == null {
        head := newNode;
      } else {
        var current := head;
        ghost var k := 0;
        while current.next != null
          invariant 0 <= k < |nodes| && current == nodes[k]
          modifies {}
          decreases |nodes| - k
        {
          assert nodes[k].next == nodes[k + 1];
          current := current.next;
          k := k + 1;
        }
        assert k == |nodes| - 1;
        current.next := newNode;
        forall i | 0 <= i < k
          ensures nodes[i].next == nodes[i + 1]
        {
          assert nodes[i] != nodes[k];
        }
      }
      size := size + 1;
      nodes := nodes + [newNode];
      contents := contents + [data];
      Repr := Repr + {newNode};
    }

    /** `prepend`: a new node in front of the old head. */
    method Prepend(data: T)
      requires Valid()
      modifies Repr
      ensures Valid() && fresh(Repr - old(Repr))
      ensures contents == [data] + old(contents)
    {
      var newNode := new ListNode(data);
      newNode.next := head;
      head := newNode;
      size := size + 1;
      nodes := [newNode] + nodes;
      contents := [data] + contents;
      Repr := Repr + {newNode};
      forall i | 1 <= i < |nodes| - 1
        ensures nodes[i].next == nodes[i + 1]
      {
        assert nodes[i] == old(nodes)[i - 1];
      }
    }

    /**
      `remove`: unlinks the first node holding `data` and reports whether
      there was one; the list is unchanged when there was not.
     */
    method Remove(data: T) returns (removed: bool)
      requires Valid()
      modifies Repr
      ensures Valid() && Repr == old(Repr)
      ensures removed <==> data in old(contents)
      ensures contents == RemoveFirst(old(contents), data)
      ensures !removed ==> contents == old(contents) && size == old(size)
    {
      if head == null {
        return false;
      }
      if head.data == data {
        head := head.next;
        size := size - 1;
        nodes := nodes[1..];
        contents := contents[1..];
        return true;
      }
      var current := head;
      ghost var k := 0;
      while current.next != null && current.next.data != data
        invariant 0 <= k < |nodes| && current == nodes[k]
        invariant data !in contents[..k + 1]
        modifies {}
        decreases |nodes| - k
      {
        assert contents[..k + 2] == contents[..k + 1] + [contents[k + 1]];
        current := current.next;
        k := k + 1;
      }
      if current.next == null {
        assert k == |nodes| - 1;
        assert contents[..k + 1] == contents;
        RemoveFirstCounts(contents, data);
        return false;
      }
      RemoveFirstAt(contents, data, k + 1);
      Unlink(current, k);
      return true;
    }

    /** The relinking step of `remove`: `current`, the node at `k`, bypasses its successor. */
    method Unlink(current: ListNode<T>, ghost k: nat)
      requires Valid()
      requires k + 1 < |nodes| && current == nodes[k]
      modifies this, current
      ensures Valid() && Repr == old(Repr)
      ensures nodes == old(nodes[..k + 1] + nodes[k + 2..])
      ensures contents == old(contents[..k + 1] + contents[k + 2..])
    {
      ghost var ns := nodes;
      assert ns[k].next == ns[k + 1];
      assert k + 2 < |ns| ==> ns[k + 1].next == ns[k + 2];
      current.next := current.next.next;
      size := size - 1;
      nodes := ns[..k + 1] + ns[k + 2..];
      contents := contents[..k + 1] + contents[k + 2..];
      forall i | 0 <= i < |nodes| - 1
        ensures nodes[i].next == nodes[i + 1]
      {
        if i < k {
          assert nodes[i] == ns[i] && nodes[i + 1] == ns[i + 1] && ns[i] != current;
        } else if i > k {
          assert nodes[i] == ns[i + 1] && nodes[i + 1] == ns[i + 2] && ns[i + 1] != current;
        }
      }
    }

    /** `find`: the first element satisfying `p`, if any. */
    method Find(p: T -> bool) returns (r: Option<T>)
      requires Valid()
      ensures r.None? <==> forall i :: 0 <= i < |contents| ==> !p(contents[i])
      ensures r.Some? ==> exists k :: 0 <= k < |contents| && contents[k] == r.value && p(r.value) &&
                                      forall j :: 0 <= j < k ==> !p(contents[j])
    {
      var current := head;
      ghost var k := 0;
      while current != null
        invariant 0 <= k <= |nodes|
        invariant current == if k < |nodes| then nodes[k] else null
        invariant forall j :: 0 <= j < k ==> !p(contents[j])
        decreases |nodes| - k
      {
        if p(current.data) {
          return Some(current.data);
        }
        current := current.next;
        k := k + 1;
      }
      return None;
    }

    /** `toArray`: the data from head to tail. */
    method ToArray() returns (result: seq<T>)
      requires Valid()
      ensures result == contents
    {
      result := [];
      var current := head;
      ghost var k := 0;
      while current != null
        invariant 0 <= k <= |nodes|
        invariant current == if k < |nodes| then nodes[k] else null
        invariant result == contents[..k]
        decreases |nodes| - k
      {
        result := result + [current.data];
        current := current.next;
        k := k + 1;
      }
      assert contents[..k] == contents;
    }

    /** `getSize`: the `size` counter, which always equals the number of elements. */
    method GetSize() returns (n: nat)
      requires Valid()
      ensures n == |contents|
    {
      return size;
    }
  }
}
