/** The intrusive doubly linked list with two sentinels (lib/kernel/list.c). Its value is
    the sequence of elements between the sentinels. */
module Lists {
  import opened Queues

  class Elem {
    var prev: Elem?
    var next: Elem?

    constructor ()
      ensures prev == null && next == null
    {
      prev, next := null, null;
    }
  }

  class List {
    const head: Elem
    const tail: Elem
    /** Head, the elements in order, tail. */
    ghost var nodes: seq<Elem>

    ghost predicate Shape()
      reads this
    {
      |nodes| >= 2 && nodes[0] == head && nodes[|nodes| - 1] == tail && Distinct(nodes)
    }

    /** Forward and backward links are inverse to each other and end at the sentinels. */
    ghost predicate Valid()
      reads this, nodes
    {
      && Shape()
      && (forall i, j :: 0 <= i < j < |nodes| && j == i + 1 ==> nodes[i].next == nodes[j] && nodes[j].prev == nodes[i])
      && head.prev == null && tail.next == null
    }

    ghost function Contents(): (s: seq<Elem>)
      requires Shape()
      reads this
    {
      nodes[1..|nodes| - 1]
    }

    /** `list_init`. */
    constructor ()
      ensures Valid() && Contents() == [] && fresh(head) && fresh(tail)
    {
      var h := new Elem();
      var t := new Elem();
      h.next, t.prev := t, h;
      head, tail := h, t;
      nodes := [h, t];
    }

    /** `list_insert_before`, where `before` stands at position k among the nodes. */
    method InsertBefore(before: Elem, elem: Elem, ghost k: nat)
      requires Valid() && 0 < k < |nodes| && nodes[k] == before && elem !in nodes
      modifies this`nodes, nodes, elem
      ensures Valid() && nodes == old(nodes[..k] + [elem] + nodes[k..])
    {
      ghost var was, prior := nodes, nodes[k - 1];
      InsertDistinct(nodes, k, elem);
      assert before.prev == prior;
      before.prev.next := elem;
      elem.prev := before.prev;
      elem.next := before;
      before.prev := elem;
      nodes := nodes[..k] + [elem] + nodes[k..];
      assert forall i :: 0 <= i < k ==> nodes[i] == was[i];
      assert forall i :: k < i < |nodes| ==> nodes[i] == was[i - 1];
    }

    /** `list_push`. */
    method Push(elem: Elem)
      requires Valid() && elem !in nodes
      modifies this`nodes, nodes, elem
      ensures Valid() && Contents() == [elem] + old(Contents())
    {
      assert nodes[0].next == nodes[1];
      InsertBefore(head.next, elem, 1);
    }

    /** `list_append`. */
    method Append(elem: Elem)
      requires Valid() && elem !in nodes
      modifies this`nodes, nodes, elem
      ensures Valid() && Contents() == old(Contents()) + [elem]
    {
      InsertBefore(tail, elem, |nodes| - 1);
    }

    /** `list_remove`, of the element at position k of the contents. */
    method RemoveAt(elem: Elem, ghost k: nat)
      requires Valid() && k < |Contents()| && Contents()[k] == elem
      modifies this`nodes, nodes
      ensures Valid() && elem !in nodes
      ensures Contents() == old(Contents()[..k] + Contents()[k + 1..])
    {
      ghost var was := nodes;
      assert elem == nodes[k + 1] && elem.prev == nodes[k] && elem.next == nodes[k + 2];
      Unlink(elem, k);
      MiddleWithout(was, k);
    }

    /** The two pointer writes of `list_remove`. */
    method Unlink(elem: Elem, ghost k: nat)
      requires Valid() && k + 2 < |nodes| && nodes[k + 1] == elem
      modifies this`nodes, nodes
      ensures Valid() && elem !in nodes && nodes == old(nodes[..k + 1] + nodes[k + 2..])
    {
      ghost var was := nodes;
      assert elem.prev == nodes[k] && elem.next == nodes[k + 2];
      RemoveDistinct(nodes, k + 1);
      elem.prev.next := elem.next;
      elem.next.prev := elem.prev;
      nodes := nodes[..k + 1] + nodes[k + 2..];
      assert forall i :: 0 <= i < |was| && i != k ==> was[i].next == old(was[i].next);
      assert forall i :: 0 <= i < |was| && i != k + 2 ==> was[i].prev == old(was[i].prev);
      forall i, j | 0 <= i < j < |nodes| && j == i + 1
        ensures nodes[i].next == nodes[j] && nodes[j].prev == nodes[i]
      {
        if i < k {
          assert nodes[i] == was[i] && nodes[j] == was[j];
        } else if i > k {
          assert nodes[i] == was[i + 1] && nodes[j] == was[j + 1];
        }
      }
    }

    /** `list_remove`: exactly that element leaves, the others keep their order. */
    method Remove(elem: Elem)
      requires Valid() && elem in Contents()
      modifies this`nodes, nodes
      ensures Valid() && Contents() == Without(old(Contents()), elem)
    {
      ghost var k: nat :| k < |Contents()| && Contents()[k] == elem;
      WithoutAt(Contents(), k);
      RemoveAt(elem, k);
    }

    /** `list_pop`. */
    method Pop() returns (elem: Elem)
      requires Valid() && Contents() != []
      modifies this`nodes, nodes
      ensures Valid() && [elem] + Contents() == old(Contents())
    {
      assert nodes[0].next == nodes[1];
      elem := head.next;
      RemoveAt(elem, 0);
    }

    method IsEmpty() returns (r: bool)
      requires Valid()
      ensures r <==> Contents() == []
    {
      assert nodes[0].next == nodes[1];
      r := head.next == tail;
    }

    /** `elem_find`. */
    method Find(obj: Elem) returns (r: bool)
      requires Valid()
      ensures r <==> obj in Contents()
    {
      assert nodes[0].next == nodes[1];
      var elem := head.next;
      ghost var k := 1;
      while elem != tail
        invariant 1 <= k < |nodes| && elem == nodes[k] && obj !in nodes[1..k]
        decreases |nodes| - k
      {
        if elem == obj { return true; }
        assert nodes[k].next == nodes[k + 1];
        elem := elem.next;
        k := k + 1;
      }
      r := false;
    }

    /** `list_len`. */
    method Len() returns (length: nat)
      requires Valid()
      ensures length == |Contents()|
    {
      assert nodes[0].next == nodes[1];
      var elem := head.next;
      length := 0;
      while elem != tail
        invariant length + 1 < |nodes| && elem == nodes[length + 1]
        decreases |nodes| - length
      {
        length := length + 1;
        assert nodes[length].next == nodes[length + 1];
        elem := elem.next;
      }
    }

    /** `list_traversal`: the first element the callback accepts. */
    method Traverse(func: Elem -> bool) returns (r: Elem?)
      requires Valid()
      ensures r == null <==> forall e :: e in Contents() ==> !func(e)
      ensures r != null ==> exists k :: 0 <= k < |Contents()| && Contents()[k] == r && func(r)
                                         && forall j :: 0 <= j < k ==> !func(Contents()[j])
    {
      assert nodes[0].next == nodes[1];
      if head.next == tail { return null; }
      var elem := head.next;
      ghost var k := 1;
      while elem != tail
        invariant 1 <= k < |nodes| && elem == nodes[k] && forall j :: 1 <= j < k ==> !func(nodes[j])
        decreases |nodes| - k
      {
        if func(elem) {
          assert Contents()[k - 1] == elem;
          return elem;
        }
        assert nodes[k].next == nodes[k + 1];
        elem := elem.next;
        k := k + 1;
      }
      r := null;
    }
  }

  lemma InsertDistinct<T>(s: seq<T>, k: nat, t: T)
    requires Distinct(s) && k <= |s| && t !in s
    ensures Distinct(s[..k] + [t] + s[k..])
  {
  }

  lemma MiddleWithout<T>(s: seq<T>, k: nat)
    requires k + 2 < |s|
    ensures var m, t := s[1..|s| - 1], s[..k + 1] + s[k + 2..];
            t[1..|t| - 1] == m[..k] + m[k + 1..]
  {
  }

  lemma RemoveDistinct<T>(s: seq<T>, k: nat)
    requires Distinct(s) && k < |s|
    ensures Distinct(s[..k] + s[k + 1..]) && s[k] !in s[..k] + s[k + 1..]
  {
  }
}
