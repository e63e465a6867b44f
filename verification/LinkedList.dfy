/**
 * The doubly linked list of src/common/list.c. Each operation is proved against a sequence of nodes, and
 * `Values` is the sequence of what they hold.
 */
module LinkedList {
  import opened Outcomes

  class Node<T> {
    var value: T
    var prev: Node?<T>
    var next: Node?<T>

    constructor (value: T)
      ensures this.value == value && prev == null && next == null
    {
      this.value, prev, next := value, null, null;
    }
  }

  ghost predicate Distinct<T>(s: seq<T>) {
    forall i, j :: 0 <= i < j < |s| ==> s[i] != s[j]
  }

  /** Every node points at its neighbours, and the two ends at nothing. */
  ghost predicate Linked<T>(s: seq<Node<T>>)
    reads s
  {
    && Distinct(s)
    && (forall i {:trigger s[i].next} :: 0 <= i < |s| ==> s[i].next == if i + 1 < |s| then s[i + 1] else null)
    && (forall i {:trigger s[i].prev} :: 0 <= i < |s| ==> s[i].prev == if i > 0 then s[i - 1] else null)
  }

  ghost function Values<T>(s: seq<Node<T>>): (r: seq<T>)
    reads s
    ensures |r| == |s| && forall i :: 0 <= i < |s| ==> r[i] == s[i].value
  {
    seq(|s|, i requires 0 <= i < |s| reads s => s[i].value)
  }

  function Reversed<T>(s: seq<T>): (r: seq<T>)
    ensures |r| == |s| && forall i :: 0 <= i < |s| ==> r[i] == s[|s| - 1 - i]
  {
    if s == [] then [] else Reversed(s[1..]) + [s[0]]
  }

  /** The links of `s` once `node` has been put in front of position `i`. */
  ghost predicate Spliced<T>(s: seq<Node<T>>, i: nat, node: Node<T>)
    requires i <= |s|
    reads s, node
  {
    && Distinct(s) && node !in s
    && node.prev == (if i > 0 then s[i - 1] else null)
    && node.next == (if i < |s| then s[i] else null)
    && (forall k {:trigger s[k].next} :: 0 <= k < |s| ==> s[k].next == if k + 1 == i then node else if k + 1 < |s| then s[k + 1] else null)
    && (forall k {:trigger s[k].prev} :: 0 <= k < |s| ==> s[k].prev == if k == i then node else if k > 0 then s[k - 1] else null)
  }

  lemma SplicedIsLinked<T>(s: seq<Node<T>>, i: nat, node: Node<T>)
    requires i <= |s| && Spliced(s, i, node)
    ensures Linked(s[..i] + [node] + s[i..])
  {
    var t := s[..i] + [node] + s[i..];
    forall k | 0 <= k < |t|
      ensures t[k].next == (if k + 1 < |t| then t[k + 1] else null) && t[k].prev == if k > 0 then t[k - 1] else null
    {
      if k < i {
        assert t[k] == s[k];
      } else if k > i {
        assert t[k] == s[k - 1];
      }
    }
  }

  lemma SplicedValues<T>(s: seq<Node<T>>, i: nat, node: Node<T>, values: seq<T>)
    requires i <= |s| && Values(s) == values
    ensures Values(s[..i] + [node] + s[i..]) == values[..i] + [node.value] + values[i..]
  {
  }

  /** The links of `s` once the node at position `i` has been bypassed. */
  ghost predicate Bypassed<T>(s: seq<Node<T>>, i: nat)
    requires i < |s|
    reads s
  {
    && Distinct(s)
    && (forall k {:trigger s[k].next} :: 0 <= k < |s| && k != i ==> s[k].next == var n := if k + 1 == i then i + 1 else k + 1; if n < |s| then s[n] else null)
    && (forall k {:trigger s[k].prev} :: 0 <= k < |s| && k != i ==> s[k].prev == var p := if k == i + 1 then i else k; if p > 0 then s[p - 1] else null)
  }

  lemma BypassedIsLinked<T>(s: seq<Node<T>>, i: nat)
    requires i < |s| && Bypassed(s, i)
    ensures Linked(s[..i] + s[i + 1..]) && Distinct(s[..i] + s[i + 1..]) && s[i] !in s[..i] + s[i + 1..]
  {
    var t := s[..i] + s[i + 1..];
    forall k | 0 <= k < |t|
      ensures t[k].next == (if k + 1 < |t| then t[k + 1] else null) && t[k].prev == if k > 0 then t[k - 1] else null
    {
      assert t[k] == s[if k < i then k else k + 1];
    }
  }

  /** Points a node's neighbours past it. */
  method Bypass<T>(node: Node<T>, ghost s: seq<Node<T>>, ghost i: nat)
    requires Linked(s) && i < |s| && s[i] == node
    modifies s`prev, s`next
    ensures Bypassed(s, i) && Values(s) == old(Values(s))
    ensures node.next == (if i + 1 < |s| then s[i + 1] else null)
    ensures node.prev == (if i > 0 then s[i - 1] else null)
  {
    if node.prev != null {
      node.prev.next := node.next;
    }
    if node.next != null {
      node.next.prev := node.prev;
    }
  }

  lemma RestEnds<T>(s: seq<T>, i: nat)
    requires i < |s|
    ensures var t := s[..i] + s[i + 1..];
      && |t| == |s| - 1
      && (t != [] ==> t[0] == s[if i == 0 then 1 else 0] && t[|t| - 1] == s[if i + 1 == |s| then i - 1 else |s| - 1])
  {
  }

  lemma BypassedValues<T>(s: seq<Node<T>>, i: nat, values: seq<T>)
    requires i < |s| && Values(s) == values
    ensures Values(s[..i] + s[i + 1..]) == values[..i] + values[i + 1..]
  {
  }

  class List<T> {
    var head: Node?<T>
    var tail: Node?<T>
    var size: nat
    const destroys: bool          // whether a destructor was registered
    ghost var nodes: seq<Node<T>>

    ghost predicate Valid()
      reads this, nodes
    {
      && Linked(nodes)
      && size == |nodes|
      && head == (if nodes == [] then null else nodes[0])
      && tail == (if nodes == [] then null else nodes[|nodes| - 1])
    }

    constructor (destroys: bool)
      ensures Valid() && nodes == [] && this.destroys == destroys
    {
      head, tail, size, nodes := null, null, 0, [];
      this.destroys := destroys;
    }

    /** `xsan_list_append`. */
    method Append(value: T, memory: bool) returns (node: Node?<T>)
      requires Valid()
      modifies this, nodes
      ensures Valid() && (node != null <==> memory)
      ensures node == null ==> unchanged(this) && unchanged(nodes)
      ensures node != null ==> fresh(node) && nodes == old(nodes) + [node]
      ensures node != null ==> Values(nodes) == old(Values(nodes)) + [value]
    {
      if !memory {
        return null;
      }
      var made := new Node(value);
      if tail == null {
        head, tail := made, made;
      } else {
        tail.next := made;
        made.prev := tail;
        tail := made;
      }
      size := size + 1;
      nodes := nodes + [made];
      node := made;
    }

    /** `xsan_list_prepend`. */
    method Prepend(value: T, memory: bool) returns (node: Node?<T>)
      requires Valid()
      modifies this, nodes
      ensures Valid() && (node != null <==> memory)
      ensures node == null ==> unchanged(this) && unchanged(nodes)
      ensures node != null ==> fresh(node) && nodes == [node] + old(nodes)
      ensures node != null ==> Values(nodes) == [value] + old(Values(nodes))
    {
      if !memory {
        return null;
      }
      var made := new Node(value);
      if head == null {
        head, tail := made, made;
      } else {
        head.prev := made;
        made.next := head;
        head := made;
      }
      size := size + 1;
      nodes := [made] + nodes;
      node := made;
    }

    /** `xsan_list_insert_after` a node of this list. */
    method InsertAfter(at: Node<T>, value: T, memory: bool, ghost i: nat) returns (node: Node?<T>)
      requires Valid() && i < |nodes| && nodes[i] == at
      modifies this, nodes
      ensures Valid() && (node != null <==> memory)
      ensures node == null ==> unchanged(this) && unchanged(nodes)
      ensures node != null ==> fresh(node) && nodes == old(nodes)[..i + 1] + [node] + old(nodes)[i + 1..]
      ensures node != null ==> Values(nodes) == old(Values(nodes))[..i + 1] + [value] + old(Values(nodes))[i + 1..]
    {
      hide Linked, Spliced, Values;
      if at == tail {
        Inside(i);
        node := Append(value, memory);
        return;
      }
      if !memory {
        return null;
      }
      var made := new Node(value);
      Inside(i);
      LinkAfter(at, made, i);
      SplicedIsLinked(nodes, i + 1, made);
      SplicedValues(nodes, i + 1, made, old(Values(nodes)));
      size := size + 1;
      nodes := nodes[..i + 1] + [made] + nodes[i + 1..];
      node := made;
    }

    /** Only the last node is the tail, and only the first is the head. */
    lemma Inside(i: nat)
      requires Valid() && i < |nodes|
      ensures nodes[i] == tail <==> i + 1 == |nodes|
      ensures nodes[i] == head <==> i == 0
    {
    }

    method LinkAfter(at: Node<T>, node: Node<T>, ghost i: nat)
      requires Valid() && i + 1 < |nodes| && nodes[i] == at && node !in nodes
      modifies node`prev, node`next, nodes`prev, nodes`next
      ensures Spliced(nodes, i + 1, node) && Values(nodes) == old(Values(nodes))
    {
      node.next := at.next;
      node.prev := at;
      if at.next != null {
        at.next.prev := node;
      }
      at.next := node;
    }

    /** `xsan_list_insert_before` a node of this list. */
    method InsertBefore(at: Node<T>, value: T, memory: bool, ghost i: nat) returns (node: Node?<T>)
      requires Valid() && i < |nodes| && nodes[i] == at
      modifies this, nodes
      ensures Valid() && (node != null <==> memory)
      ensures node == null ==> unchanged(this) && unchanged(nodes)
      ensures node != null ==> fresh(node) && nodes == old(nodes)[..i] + [node] + old(nodes)[i..]
      ensures node != null ==> Values(nodes) == old(Values(nodes))[..i] + [value] + old(Values(nodes))[i..]
    {
      hide Linked, Spliced, Values;
      if at == head {
        Inside(i);
        node := Prepend(value, memory);
        return;
      }
      if !memory {
        return null;
      }
      var made := new Node(value);
      Inside(i);
      LinkBefore(at, made, i);
      SplicedIsLinked(nodes, i, made);
      SplicedValues(nodes, i, made, old(Values(nodes)));
      size := size + 1;
      nodes := nodes[..i] + [made] + nodes[i..];
      node := made;
    }

    method LinkBefore(at: Node<T>, node: Node<T>, ghost i: nat)
      requires Valid() && 0 < i < |nodes| && nodes[i] == at && node !in nodes
      modifies node`prev, node`next, nodes`prev, nodes`next
      ensures Spliced(nodes, i, node) && Values(nodes) == old(Values(nodes))
    {
      node.prev := at.prev;
      node.next := at;
      if at.prev != null {
        at.prev.next := node;
      }
      at.prev := node;
    }

    /** `xsan_list_remove_node` of a node of this list. `destroyed` lists the values handed to the destructor. */
    method RemoveNode(node: Node<T>, ghost i: nat) returns (destroyed: seq<T>)
      requires Valid() && i < |nodes| && nodes[i] == node
      modifies this, nodes
      ensures Valid() && node !in nodes
      ensures nodes == old(nodes)[..i] + old(nodes)[i + 1..]
      ensures Values(nodes) == old(Values(nodes))[..i] + old(Values(nodes))[i + 1..]
      ensures destroyed == if destroys then [old(Values(nodes))[i]] else []
    {
      hide Linked, Bypassed, Values, Distinct;
      var isHead, isTail := node == head, node == tail;
      ghost var was, values := nodes, Values(nodes);
      Inside(i);
      Bypass(node, nodes, i);
      if isHead {
        head := node.next;
      }
      if isTail {
        tail := node.prev;
      }
      destroyed := if destroys then [node.value] else [];
      size := size - 1;
      if size == 0 {
        head, tail := null, null;
      }
      nodes := was[..i] + was[i + 1..];
      RestEnds(was, i);
      BypassedIsLinked(was, i);
      BypassedValues(was, i, values);
    }

    /** `xsan_list_pop_front`. */
    method PopFront() returns (value: Option<T>)
      requires Valid()
      modifies this, nodes
      ensures Valid()
      ensures old(nodes) == [] ==> value == None && nodes == []
      ensures old(nodes) != [] ==> value == Some(old(Values(nodes))[0]) && nodes == old(nodes)[1..]
      ensures Values(nodes) == if old(nodes) == [] then [] else old(Values(nodes))[1..]
    {
      if head == null {
        return None;
      }
      value := Some(head.value);
      head := head.next;
      if head != null {
        head.prev := null;
      } else {
        tail := null;
      }
      size := size - 1;
      nodes := nodes[1..];
    }

    /** `xsan_list_pop_back`. */
    method PopBack() returns (value: Option<T>)
      requires Valid()
      modifies this, nodes
      ensures Valid()
      ensures old(nodes) == [] ==> value == None && nodes == []
      ensures old(nodes) != [] ==> value == Some(old(Values(nodes))[|old(nodes)| - 1]) && nodes == old(nodes)[..|old(nodes)| - 1]
      ensures Values(nodes) == if old(nodes) == [] then [] else old(Values(nodes))[..|old(nodes)| - 1]
    {
      if tail == null {
        return None;
      }
      value := Some(tail.value);
      tail := tail.prev;
      if tail != null {
        tail.next := null;
      } else {
        head := null;
      }
      size := size - 1;
      nodes := nodes[..|nodes| - 1];
    }

    /** `xsan_list_clear`: every value goes to the destructor once, front to back. */
    method Clear() returns (destroyed: seq<T>)
      requires Valid()
      modifies this
      ensures Valid() && nodes == []
      ensures destroyed == if destroys then old(Values(nodes)) else []
    {
      destroyed := [];
      var current := head;
      ghost var i := 0;
      while current != null
        invariant i <= |nodes| && current == if i < |nodes| then nodes[i] else null
        invariant destroyed == if destroys then Values(nodes)[..i] else []
        decreases |nodes| - i
      {
        var next := current.next;
        if destroys {
          destroyed := destroyed + [current.value];
        }
        current := next;
        i := i + 1;
      }
      head, tail, size, nodes := null, null, 0, [];
    }

    /** Walking `next` from the head visits the values in order. */
    method Forward() returns (s: seq<T>)
      requires Valid()
      ensures s == Values(nodes) && |s| == size
    {
      s := [];
      var current := head;
      while current != null
        invariant |s| <= |nodes| && current == if |s| < |nodes| then nodes[|s|] else null
        invariant s == Values(nodes)[..|s|]
        decreases |nodes| - |s|
      {
        s := s + [current.value];
        current := current.next;
      }
    }

    /** Walking `prev` from the tail visits the same values in reverse. */
    method Backward() returns (s: seq<T>)
      requires Valid()
      ensures s == Reversed(Values(nodes)) && |s| == size
    {
      s := [];
      var current := tail;
      while current != null
        invariant |s| <= |nodes| && current == if |s| < |nodes| then nodes[|nodes| - 1 - |s|] else null
        invariant s == Reversed(Values(nodes))[..|s|]
        decreases |nodes| - |s|
      {
        s := s + [current.value];
        current := current.prev;
      }
    }
  }
}
