/**
 The circular doubly-linked lists of lib/list.c. A list is a ring of nodes; the sequence
 that describes it starts with the list head, so the elements of the list are the rest.
 */
module LinkedList {
  import opened Common

  class ListNode {
    var next: ListNode
    var prev: ListNode

    /* list_init */
    constructor ()
      ensures Ring([this])
    {
      next, prev := this, this;
    }
  }

  function Next(i: nat, n: nat): nat
    requires i < n
  {
    if i + 1 < n then i + 1 else 0
  }

  /* The nodes of s, in this order and back to the first one, are linked both ways. */
  ghost predicate Ring(s: seq<ListNode>)
    reads s
  {
    && |s| > 0
    && Distinct(s)
    && forall i :: 0 <= i < |s| ==> s[i].next == s[Next(i, |s|)] && s[Next(i, |s|)].prev == s[i]
  }

  /* The same ring, described from another node on. */
  lemma Rotate(s: seq<ListNode>, k: nat)
    requires Ring(s) && k < |s|
    ensures Ring(s[k..] + s[..k])
  {
    var n := |s|;
    var t := s[k..] + s[..k];
    forall i | 0 <= i < n
      ensures t[i].next == t[Next(i, n)] && t[Next(i, n)].prev == t[i]
    {
      var j := if i + k < n then i + k else i + k - n;
      assert t[i] == s[j] && t[Next(i, n)] == s[Next(j, n)];
    }
  }

  /* list_insert_after, seen from the node before the new one. */
  method InsertAfter(after: ListNode, n: ListNode, ghost s: seq<ListNode>)
    requires Ring(s) && s[0] == after && n !in s
    modifies s, n
    ensures Ring([after, n] + s[1..])
  {
    ghost var t := [after, n] + s[1..];
    ghost var m := |t|;
    assert s[0].next == s[Next(0, |s|)] && s[Next(0, |s|)].prev == s[0];
    n.prev := after;
    n.next := after.next;
    after.next.prev := n;
    after.next := n;
    forall i | 0 <= i < m
      ensures t[i].next == t[Next(i, m)] && t[Next(i, m)].prev == t[i]
    {
      if i >= 2 {
        assert t[i] == s[i - 1] && t[Next(i, m)] == s[Next(i - 1, |s|)];
      }
    }
  }

  /* list_insert_before, seen from the node after the new one. */
  method InsertBefore(before: ListNode, n: ListNode, ghost s: seq<ListNode>)
    requires Ring(s) && s[0] == before && n !in s
    modifies s, n
    ensures Ring(s + [n])
  {
    ghost var t := s + [n];
    ghost var k, m := |s| - 1, |t|;
    assert s[k].next == s[Next(k, |s|)] && s[0].prev == s[k];
    n.next := before;
    n.prev := before.prev;
    before.prev.next := n;
    before.prev := n;
    forall i | 0 <= i < m
      ensures t[i].next == t[Next(i, m)] && t[Next(i, m)].prev == t[i]
    {
      if i < k {
        assert t[i] == s[i] && t[Next(i, m)] == s[Next(i, |s|)];
      }
    }
  }

  /* list_del: the node becomes a ring of its own, the others stay linked in order. Works on
     a list head as well. */
  method Del(node: ListNode, ghost s: seq<ListNode>)
    requires Ring(s) && s[0] == node
    modifies s
    ensures Ring([node])
    ensures |s| > 1 ==> Ring(s[1..])
  {
    ghost var t := s[1..];
    ghost var k, m := |s| - 1, |t|;
    assert s[k].next == s[Next(k, |s|)] && s[0].prev == s[k];
    assert s[0].next == s[Next(0, |s|)] && s[Next(0, |s|)].prev == s[0];
    node.prev.next := node.next;
    node.next.prev := node.prev;
    node.next := node;
    node.prev := node;
    forall i | 0 <= i < m
      ensures t[i].next == t[Next(i, m)] && t[Next(i, m)].prev == t[i]
    {
      if i + 1 < m {
        assert t[i] == s[i + 1] && t[Next(i, m)] == s[Next(i + 1, |s|)];
      }
    }
  }

  // ------------------------------------------------------------------ lists with a head

  /* list_add: the new node comes first. */
  method Add(head: ListNode, n: ListNode, ghost l: seq<ListNode>)
    requires Ring([head] + l) && n !in [head] + l
    modifies [head] + l, n
    ensures Ring([head] + ([n] + l))
  {
    InsertAfter(head, n, [head] + l);
    assert [head, n] + ([head] + l)[1..] == [head] + ([n] + l);
  }

  /* list_add_tail: the new node comes last. */
  method AddTail(head: ListNode, n: ListNode, ghost l: seq<ListNode>)
    requires Ring([head] + l) && n !in [head] + l
    modifies [head] + l, n
    ensures Ring([head] + (l + [n]))
  {
    InsertBefore(head, n, [head] + l);
    assert [head] + l + [n] == [head] + (l + [n]);
  }

  /* list_pop: takes the last node. */
  method Pop(head: ListNode, ghost l: seq<ListNode>) returns (r: ListNode?)
    requires Ring([head] + l)
    modifies [head] + l
    ensures l == [] ==> r == null && Ring([head])
    ensures l != [] ==> r == l[|l| - 1] && Ring([head] + l[..|l| - 1]) && Ring([r])
  {
    ghost var s := [head] + l;
    ghost var k := |s| - 1;
    Ends(head, l);
    hide Ring;
    if head.prev == head {
      return null;
    }
    var node := head.prev;
    assert s[k] == l[|l| - 1] && s[..k] == [head] + l[..|l| - 1];
    assert Ring(s[k..] + s[..k]) by { Rotate(s, k); }
    ghost var t := s[k..] + s[..k];
    assert t[0] == node && t[1..] == [head] + l[..|l| - 1];
    Del(node, t);
    r := node;
  }

  /* The neighbours of a list head. */
  lemma Ends(head: ListNode, l: seq<ListNode>)
    requires Ring([head] + l)
    ensures l == [] ==> head.prev == head && head.next == head && [head] + l == [head]
    ensures l != [] ==> head.prev == l[|l| - 1] && head.next == l[0] && head !in l
  {
    var s := [head] + l;
    var k := |s| - 1;
    assert s[k].next == s[Next(k, |s|)] && s[0].prev == s[k] && s[0].next == s[Next(0, |s|)];
    assert forall j :: 0 <= j < |l| ==> l[j] == s[j + 1];
  }

  /* list_pop_tail: despite its name, takes the first node. */
  method PopTail(head: ListNode, ghost l: seq<ListNode>) returns (r: ListNode?)
    requires Ring([head] + l)
    modifies [head] + l
    ensures l == [] ==> r == null && Ring([head])
    ensures l != [] ==> r == l[0] && Ring([head] + l[1..]) && Ring([r])
  {
    ghost var s := [head] + l;
    Ends(head, l);
    hide Ring;
    if head.next == head {
      return null;
    }
    var node := head.next;
    assert s[1..] == l && s[..1] == [head];
    assert Ring(l + [head]) by { Rotate(s, 1); }
    Del(node, l + [head]);
    ghost var u := l[1..] + [head];
    assert (l + [head])[1..] == u && u[|u| - 1..] == [head] && u[..|u| - 1] == l[1..];
    assert Ring([head] + l[1..]) by { Rotate(u, |u| - 1); }
    r := node;
  }

  /* move_nextq_to_runq: the head of nextq is cut out of its ring and the head of runq put in
     its place. Whatever was linked to runq before is not part of the new list. */
  method Splice(runq: ListNode, nextq: ListNode, ghost l: seq<ListNode>)
    requires Ring([nextq] + l) && runq !in [nextq] + l
    modifies [nextq] + l, runq
    ensures Ring([nextq])
    ensures l != [] ==> Ring([runq] + l)
    ensures l == [] ==> runq.next == old(runq.next) && runq.prev == old(runq.prev)
  {
    ghost var s := [nextq] + l;
    assert s[0].next == s[Next(0, |s|)];
    if nextq.next == nextq {
      assert [nextq] + l == [nextq];
      return;
    }
    var first := nextq.next;
    assert l != [] && first == l[0] && s[1..] == l;
    assert nextq !in l by {
      assert forall j :: 0 <= j < |l| ==> l[j] == s[j + 1];
    }
    hide Ring, Distinct;
    Del(nextq, s);
    InsertBefore(first, runq, l);
    ghost var u := l + [runq];
    Rotate(u, |l|);
    assert u[|l|..] + u[..|l|] == [runq] + l;
  }
}
