/** The intrusive doubly linked list under everything else (utils/linked_list.c). Each operation
    relinks nodes in place and is proved against the same operation on a sequence. */
module LinkedLists {
  import opened Sequences

  /** struct list_node; the objects that embed it are not modelled here. */
  class Node {
    var prev: Node?
    var next: Node?

    constructor ()
    {
      prev, next := null, null;
    }
  }

  lemma FewKeep(ln: Node)
    ensures AllDifferent<Node>([]) && AllDifferent([ln])
  {
  }

  lemma AppendKeeps(s: seq<Node>, t: seq<Node>)
    requires AllDifferent(s) && AllDifferent(t) && forall n :: n in t ==> n !in s
    ensures AllDifferent(s + t)
  {
    forall i, j | 0 <= i < j < |s + t| ensures (s + t)[i] != (s + t)[j] {
      if i < |s| && |s| <= j {
        assert t[j - |s|] in t && s[i] in s;
      }
    }
  }

  /** What stands at position i, NULL off either end. */
  function At(s: seq<Node>, i: int): Node? {
    if 0 <= i < |s| then s[i] else null
  }

  predicate LinkOk(s: seq<Node>, i: nat)
    requires i < |s|
    reads s
  {
    s[i].prev == At(s, i - 1) && s[i].next == At(s, i + 1)
  }

  /** Neighbours point at each other and the ends at NULL. */
  ghost predicate Linked(s: seq<Node>)
    reads s
  {
    forall i :: 0 <= i < |s| ==> LinkOk(s, i)
  }

  /** struct list_head: head is list.next, tail is list.prev. */
  class List {
    var head: Node?
    var tail: Node?
    var count: nat
    ghost var nodes: seq<Node>

    ghost predicate Valid()
      reads this, nodes
    {
      && count == |nodes| && AllDifferent(nodes) && Linked(nodes)
      && head == At(nodes, 0) && tail == At(nodes, |nodes| - 1)
    }

    /** linked_list_init */
    constructor ()
      ensures Valid() && nodes == []
    {
      head, tail, count, nodes := null, null, 0, [];
    }

    method AddHead(ln: Node)
      requires Valid() && ln !in nodes
      modifies this, ln, nodes
      ensures Valid() && nodes == [ln] + old(nodes)
    {
      hide AllDifferent;
      FewKeep(ln);
      AppendKeeps([ln], nodes);
      if nodes != [] {
        OnlyAt(nodes, 0);
      }
      if tail == null && head == null {
        head, tail := ln, ln;
        ln.next, ln.prev := null, null;
      } else {
        ln.next := head;
        ln.next.prev := ln;
        ln.prev := null;
        head := ln;
      }
      count := count + 1;
      nodes := [ln] + nodes;
      forall i | 0 <= i < |nodes| ensures LinkOk(nodes, i) {
        assert i > 0 ==> old(LinkOk(nodes, i - 1));
      }
    }

    method AddTail(ln: Node)
      requires Valid() && ln !in nodes
      modifies this, ln, nodes
      ensures Valid() && nodes == old(nodes) + [ln]
    {
      hide AllDifferent;
      FewKeep(ln);
      AppendKeeps(nodes, [ln]);
      if nodes != [] {
        OnlyAt(nodes, |nodes| - 1);
      }
      if head == null && tail == null {
        head, tail := ln, ln;
        ln.next, ln.prev := null, null;
      } else {
        ln.next := null;
        ln.prev := tail;
        ln.prev.next := ln;
        tail := ln;
      }
      count := count + 1;
      nodes := nodes + [ln];
      forall i | 0 <= i < |nodes| ensures LinkOk(nodes, i) {
        assert i + 1 < |nodes| ==> old(LinkOk(nodes, i));
      }
    }

    /** Unlinks ln, wherever it stands; the others keep their order. */
    method Remove(ln: Node, ghost k: nat)
      requires Valid() && k < |nodes| && nodes[k] == ln
      modifies this, nodes
      ensures Valid() && nodes == RemoveAt(old(nodes), k)
    {
      hide AllDifferent;
      OnlyAt(nodes, k);
      if 0 < k {
        OnlyAt(nodes, k - 1);
      }
      if k + 1 < |nodes| {
        OnlyAt(nodes, k + 1);
      }
      RemoveKeeps(nodes, k);
      assert LinkOk(nodes, k);
      if ln.prev == null {
        head := ln.next;
      } else {
        ln.prev.next := ln.next;
      }
      if ln.next == null {
        tail := ln.prev;
      } else {
        ln.next.prev := ln.prev;
      }
      count := count - 1;
      ghost var s := nodes;
      nodes := RemoveAt(nodes, k);
      forall i | 0 <= i < |nodes| ensures LinkOk(nodes, i) {
        var j := if i < k then i else i + 1;
        assert old(LinkOk(s, j)) && nodes[i] == s[j];
        assert nodes[i].prev == if j == k + 1 then At(s, k - 1) else At(s, j - 1);
        assert nodes[i].next == if j == k - 1 then At(s, k + 1) else At(s, j + 1);
      }
    }

    method FindNode(ln: Node) returns (status: int)
      requires Valid()
      ensures status == if ln in nodes then 0 else -1
    {
      var work := head;
      ghost var i := 0;
      while work != null && work != ln
        invariant 0 <= i <= |nodes| && work == At(nodes, i) && ln !in nodes[..i]
        decreases |nodes| - i
      {
        assert LinkOk(nodes, i);
        work := work.next;
        i := i + 1;
      }
      return if work == null then -1 else 0;
    }

    /** linked_list_concat with this list as source: its nodes move behind dst's, in order. */
    method Concat(dst: List) returns (status: int)
      requires Valid() && dst.Valid() && dst != this
      requires forall n :: n in nodes ==> n !in dst.nodes
      modifies this, dst, nodes, dst.nodes
      ensures Valid() && dst.Valid() && nodes == [] && dst.nodes == old(dst.nodes) + old(nodes)
      ensures status == if old(nodes) == [] then -1 else 0
    {
      hide AllDifferent;
      if count == 0 {
        return -1;
      }
      AppendKeeps(dst.nodes, nodes);
      FewKeep(head);
      OnlyAt(nodes, 0);
      if dst.count > 0 {
        OnlyAt(dst.nodes, |dst.nodes| - 1);
      }
      if dst.count == 0 {
        dst.head, dst.tail, dst.count := head, tail, count;
      } else {
        dst.tail.next := head;
        head.prev := dst.tail;
        dst.tail := tail;
        dst.count := dst.count + count;
      }
      ghost var n, mine := |dst.nodes|, nodes;
      dst.nodes := dst.nodes + nodes;
      head, tail, count, nodes := null, null, 0, [];
      forall i | 0 <= i < |dst.nodes| ensures LinkOk(dst.nodes, i) {
        if i < n {
          assert old(LinkOk(dst.nodes, i)) && mine[0] in mine;
        } else {
          assert old(LinkOk(nodes, i - n)) && mine[i - n] in mine;
        }
      }
      return 0;
    }

    /** The first node, taken off the list, or NULL. */
    method GetFirst() returns (ln: Node?)
      requires Valid()
      modifies this, nodes
      ensures Valid() && ln == old(At(nodes, 0))
      ensures nodes == if ln == null then [] else old(nodes)[1..]
    {
      ln := null;
      if head != null {
        ln := head;
        assert LinkOk(nodes, 0);
        if ln.next != null {
          ln.next.prev := null;
        } else {
          tail := null;
        }
        head := ln.next;
        count := count - 1;
        nodes := nodes[1..];
        forall i | 0 <= i < |nodes| ensures LinkOk(nodes, i) {
          assert old(LinkOk(nodes, i + 1));
        }
      }
    }

    /** The last node, taken off the list, or NULL. */
    method GetLast() returns (ln: Node?)
      requires Valid()
      modifies this, nodes
      ensures Valid() && ln == old(At(nodes, |nodes| - 1))
      ensures nodes == if ln == null then [] else old(nodes)[..|old(nodes)| - 1]
    {
      ln := null;
      if tail != null {
        ln := tail;
        assert LinkOk(nodes, |nodes| - 1);
        if ln.prev != null {
          ln.prev.next := null;
        } else {
          head := null;
        }
        tail := ln.prev;
        count := count - 1;
        nodes := nodes[..|nodes| - 1];
        forall i | 0 <= i < |nodes| ensures LinkOk(nodes, i) {
          assert old(LinkOk(nodes, i));
        }
      }
    }
  }
}
