/** The index-carrying linked list over its pointer chain. */
module LinkedLists {
  import opened Wrappers

  /** s with x put in at position k. */
  ghost function Inserted<T>(s: seq<T>, k: nat, x: T): seq<T>
    requires k <= |s|
  {
    seq(|s| + 1, i requires 0 <= i <= |s| => if i < k then s[i] else if i == k then x else s[i - 1])
  }

  lemma InsertedAt<T>(s: seq<T>, k: nat, x: T)
    requires k <= |s|
    ensures var r := Inserted(s, k, x);
      |r| == |s| + 1 && forall i :: 0 <= i < |r| ==> r[i] == if i < k then s[i] else if i == k then x else s[i - 1]
  {
  }

  lemma InsertedDistinct<T>(s: seq<T>, k: nat, x: T)
    requires k <= |s| && x !in s && forall i, j :: 0 <= i < j < |s| ==> s[i] != s[j]
    ensures forall i, j :: 0 <= i < j < |Inserted(s, k, x)| ==> Inserted(s, k, x)[i] != Inserted(s, k, x)[j]
  {
  }

  lemma InsertedIs<T>(s: seq<T>, k: nat, x: T)
    requires k <= |s|
    ensures Inserted(s, k, x) == s[..k] + [x] + s[k..]
  {
  }

  class Node<T> {
    var data: T
    var next: Node?<T>
    var index: int

    constructor (value: T)
      ensures data == value && next == null
    {
      data, next, index := value, null, 0;
    }
  }

  class LinkedList<T> {
    var list: Node?<T>
    ghost var nodes: seq<Node<T>>

    ghost function At(i: int): Node?<T>
      reads this
    {
      if 0 <= i < |nodes| then nodes[i] else null
    }

    /** nodes is the chain that hangs from list; it is finite, so the chain has no cycle. */
    ghost predicate Chain()
      reads this, nodes
    {
      && list == At(0)
      && (forall i {:trigger nodes[i].next} :: 0 <= i < |nodes| ==> nodes[i].next == At(i + 1))
      && (forall i, j :: 0 <= i < j < |nodes| ==> nodes[i] != nodes[j])
    }

    /** Between calls every node carries its position. */
    ghost predicate Valid()
      reads this, nodes
    {
      Chain() && forall i :: 0 <= i < |nodes| ==> nodes[i].index == i
    }

    ghost function Contents(): (s: seq<T>)
      reads this, nodes
      ensures |s| == |nodes|
    {
      seq(|nodes|, i requires 0 <= i < |nodes| reads this, nodes => nodes[i].data)
    }

    constructor ()
      ensures Valid() && Contents() == []
    {
      list, nodes := null, [];
    }

    method Find(index: int) returns (node: Node?<T>)
      requires Valid()
      ensures node == At(index)
    {
      node := list;
      ghost var i := 0;
      while node != null && node.index != index
        invariant 0 <= i <= |nodes| && node == At(i)
        invariant !(0 <= index < i)
        decreases |nodes| - i
      {
        node := node.next;
        i := i + 1;
      }
    }

    method Get(index: int) returns (value: Option<T>)
      requires Valid()
      ensures value == if 0 <= index < |nodes| then Some(Contents()[index]) else None
    {
      var node := Find(index);
      value := if node == null then None else Some(node.data);
    }

    /** Renumbers the chain. */
    method Update()
      requires Chain()
      modifies nodes`index
      ensures Valid() && Contents() == old(Contents())
    {
      if list == null {
        return;
      }
      var last := list;
      var idx := 0;
      while last != null
        invariant 0 <= idx <= |nodes| && last == At(idx) && Chain()
        invariant forall i :: 0 <= i < idx ==> nodes[i].index == i
        decreases |nodes| - idx
      {
        last.index := idx;
        idx := idx + 1;
        last := last.next;
      }
    }

    method Push(value: T)
      requires Valid()
      modifies this, nodes
      ensures Valid() && |nodes| == |old(nodes)| + 1 && fresh(nodes[0]) && nodes[1..] == old(nodes)
      ensures Contents() == [value] + old(Contents())
    {
      var node := new Node(value);
      node.next := list;
      list := node;
      ghost var ns := nodes;
      nodes := [node] + nodes;
      assert forall i {:trigger nodes[i].next} :: 0 < i < |nodes| ==>
        nodes[i] == ns[i - 1] && nodes[i].next == At(i + 1);
      assert Contents() == [value] + old(Contents());
      Update();
    }

    method PushBack(value: T)
      requires Valid()
      modifies this, nodes
      ensures Valid() && |nodes| == |old(nodes)| + 1 && fresh(nodes[|nodes| - 1]) && nodes[..|nodes| - 1] == old(nodes)
      ensures forall i :: 0 <= i < |nodes| ==> nodes[i] in old(nodes) || fresh(nodes[i])
      ensures Contents() == old(Contents()) + [value]
    {
      var node := new Node(value);
      if list == null {
        list := node;
      } else {
        var last := list;
        ghost var i := 0;
        while last.next != null
          invariant 0 <= i < |nodes| && last == nodes[i] == At(i)
          decreases |nodes| - i
        {
          last := last.next;
          i := i + 1;
        }
        last.next := node;
      }
      nodes := nodes + [node];
      assert Contents() == old(Contents()) + [value];
      Update();
    }

    /** The walk of `insert_before`, `insert_after` and `pop(index)`: the node with the index,
        if there is one, and the node before it. */
    method Search(index: int) returns (node: Node?<T>, last: Node?<T>)
      requires Valid()
      ensures node == At(index)
      ensures node != null ==> last == At(index - 1)
    {
      node, last := list, null;
      ghost var i := 0;
      while node != null
        invariant 0 <= i <= |nodes| && node == At(i) && last == At(i - 1)
        invariant !(0 <= index < i)
        decreases |nodes| - i
      {
        if node.index == index {
          return;
        }
        last := node;
        node := node.next;
        i := i + 1;
      }
    }

    /** Hangs a new node in between last and the node after it, which is node k. */
    method Splice(ghost k: nat, last: Node<T>, result: Node<T>)
      requires Valid() && 0 < k < |nodes| && last == nodes[k - 1] && result !in nodes
      modifies this, nodes, result
      ensures Valid() && nodes == old(nodes[..k] + [result] + nodes[k..])
      ensures forall i :: 0 <= i < |nodes| ==> nodes[i] in old(nodes) || nodes[i] == result
      ensures Contents() == old(Contents())[..k] + [old(result.data)] + old(Contents())[k..]
    {
      ghost var ns, contents := nodes, Contents();
      result.next := last.next;
      last.next := result;
      nodes := Inserted(ns, k, result);
      InsertedAt(ns, k, result);
      InsertedDistinct(ns, k, result);
      InsertedAt(contents, k, result.data);
      hide Inserted;
      assert forall i {:trigger nodes[i].next} :: 0 <= i < |nodes| ==> nodes[i].next == At(i + 1);
      assert Contents() == Inserted(contents, k, result.data);
      Update();
      InsertedIs(ns, k, result);
      InsertedIs(contents, k, result.data);
    }

    method InsertBefore(index: int, value: T) returns (ok: bool)
      requires Valid()
      modifies this, nodes
      ensures Valid() && ok == (0 <= index < |old(nodes)|)
      ensures forall i :: 0 <= i < |nodes| ==> nodes[i] in old(nodes) || fresh(nodes[i])
      ensures Contents() ==
        if ok then old(Contents())[..index] + [value] + old(Contents())[index..] else old(Contents())
    {
      var result := new Node(value);
      assert Contents() == old(Contents());
      var node, last := Search(index);
      if node == null {
        return false;
      }
      if node == list {
        Push(value);
      } else {
        Splice(index, last, result);
      }
      return true;
    }

    /** Inserts after the last node too, but then reports that it did not. */
    method InsertAfter(index: int, value: T) returns (ok: bool)
      requires Valid()
      modifies this, nodes
      ensures Valid() && ok == (0 <= index && index + 1 < |old(nodes)|)
      ensures forall i :: 0 <= i < |nodes| ==> nodes[i] in old(nodes) || fresh(nodes[i])
      ensures Contents() ==
        if 0 <= index < |old(nodes)| then old(Contents())[..index + 1] + [value] + old(Contents())[index + 1..]
        else old(Contents())
    {
      var result := new Node(value);
      assert Contents() == old(Contents());
      var node, _ := Search(index);
      if node != null {
        if node.next == null {
          PushBack(value);
        } else {
          Splice(index + 1, node, result);
          return true;
        }
      }
      return false;
    }

    method Pop() returns (ok: bool)
      requires Valid()
      modifies this, nodes
      ensures Valid() && ok == (old(nodes) != [])
      ensures nodes == if ok then old(nodes)[1..] else []
      ensures Contents() == if ok then old(Contents())[1..] else []
    {
      if list == null {
        return false;
      }
      ghost var contents := Contents();
      list := list.next;
      nodes := nodes[1..];
      assert Contents() == contents[1..];
      Update();
      return true;
    }

    /** Removes the element in front of the index. */
    method PopIndex(index: int) returns (ok: bool)
      requires Valid()
      modifies this, nodes
      ensures Valid() && ok == (0 < index < |old(nodes)|)
      ensures Contents() == if ok then old(Contents())[..index - 1] + old(Contents())[index..] else old(Contents())
    {
      if list == null {
        return false;
      }
      var node, last := Search(index);
      if node == null || node == list {
        return false;
      }
      if node == list.next {
        ok := Pop();
      } else {
        var before := Find(last.index - 1);
        Unlink(index - 1, before, node);
      }
      return true;
    }

    /** Makes node k + 1 follow node k - 1. */
    method Unlink(ghost k: nat, before: Node<T>, node: Node<T>)
      requires Valid() && 0 < k && k + 1 < |nodes| && before == nodes[k - 1] && node == nodes[k + 1]
      modifies this, nodes
      ensures Valid() && nodes == old(nodes[..k] + nodes[k + 1..])
      ensures Contents() == old(Contents())[..k] + old(Contents())[k + 1..]
    {
      ghost var ns, contents := nodes, Contents();
      before.next := node;
      nodes := ns[..k] + ns[k + 1..];
      assert nodes[k] == node && nodes[k - 1] == before;
      assert forall i {:trigger nodes[i].next} :: k <= i < |nodes| ==>
        nodes[i] == ns[i + 1] && nodes[i].next == At(i + 1);
      assert Contents() == contents[..k] + contents[k + 1..];
      Update();
    }

    method PopBack() returns (ok: bool)
      requires Valid()
      modifies this, nodes
      ensures Valid() && ok == (old(nodes) != [])
      ensures nodes == if ok then old(nodes)[..|old(nodes)| - 1] else []
      ensures Contents() == if ok then old(Contents())[..|old(nodes)| - 1] else []
    {
      if list == null {
        return false;
      }
      ghost var n, contents := |nodes| - 1, Contents();
      if list.next == null {
        list := null;
      } else {
        var node, last := list, list;
        ghost var i := 0;
        while node.next != null
          invariant 0 <= i < |nodes| && node == nodes[i] == At(i) && (i > 0 ==> last == nodes[i - 1])
          decreases |nodes| - i
        {
          last := node;
          node := node.next;
          i := i + 1;
        }
        last.next := null;
      }
      nodes := nodes[..n];
      assert Contents() == contents[..n];
      return true;
    }

    method Clear()
      requires Valid()
      modifies this, nodes
      ensures Valid() && Contents() == []
    {
      while list != null
        invariant Valid() && |nodes| <= |old(nodes)| && nodes == old(nodes)[..|nodes|]
        decreases |nodes|
      {
        var _ := PopBack();
      }
    }
  }

  /** Inserting before an index and removing in front of the next one cancel out. */
  method InsertThenPop<T>(l: LinkedList<T>, index: int, value: T)
    requires l.Valid() && 0 <= index < |l.nodes|
    modifies l, l.nodes
    ensures l.Valid() && l.Contents() == old(l.Contents())
  {
    ghost var contents := l.Contents();
    var _ := l.InsertBefore(index, value);
    var _ := l.PopIndex(index + 1);
    assert l.Contents() == contents[..index] + contents[index..];
  }
}
