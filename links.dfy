/** The circular doubly-linked lists of `link_t` nodes: ClearLink,
    RemoveLink, InsertLinkBefore and InsertLinkAfter.

    A list is described by the ghost sequence of its nodes in `next` order;
    `Ring(nodes)` says that the `next` and `prev` fields close that sequence
    into a circle.  Each operation names the node it works on as the first
    of the sequence, which `RotateRing` shows is no restriction. */
module Links {

  class Link {
    var prev: Link
    var next: Link

    /** A node that is a ring of its own. */
    constructor ()
      ensures prev == this && next == this
    {
      prev := this;
      next := this;
    }
  }

  /** The index after `i` in a circle of `n`. */
  function Succ(i: nat, n: nat): nat
    requires i < n
  {
    if i + 1 == n then 0 else i + 1
  }

  /** No node appears twice. */
  predicate Distinct(nodes: seq<Link>)
  {
    forall i, j :: 0 <= i < j < |nodes| ==> nodes[i] != nodes[j]
  }

  /** The nodes, in `next` order, form one closed ring. */
  ghost predicate Ring(nodes: seq<Link>)
    reads nodes
  {
    |nodes| >= 1 && Distinct(nodes) &&
    forall i :: 0 <= i < |nodes| ==>
      nodes[i].next == nodes[Succ(i, |nodes|)] && nodes[Succ(i, |nodes|)].prev == nodes[i]
  }

  /** A ring read from any of its nodes is still a ring. */
  lemma RotateRing(nodes: seq<Link>, k: nat)
    requires Ring(nodes) && k < |nodes|
    ensures Ring(nodes[k..] + nodes[..k])
  {
    var n := |nodes|;
    var r := nodes[k..] + nodes[..k];
    assert forall i :: 0 <= i < n ==> r[i] == nodes[if i < n - k then i + k else i + k - n];
    forall i, j | 0 <= i < j < n ensures r[i] != r[j] {
      var a := if i < n - k then i + k else i + k - n;
      var b := if j < n - k then j + k else j + k - n;
      assert a != b;
      if a < b { assert nodes[a] != nodes[b]; } else { assert nodes[b] != nodes[a]; }
    }
    forall i | 0 <= i < n
      ensures r[i].next == r[Succ(i, n)] && r[Succ(i, n)].prev == r[i]
    {
      var a := if i < n - k then i + k else i + k - n;
      assert r[i] == nodes[a];
      assert r[Succ(i, n)] == nodes[Succ(a, n)];
    }
  }

  /** ClearLink: the node becomes a ring of one. */
  method ClearLink(l: Link)
    modifies l
    ensures Ring([l])
  {
    l.next := l;
    l.prev := l;
  }

  /** RemoveLink: the neighbours of the first node are joined, so the rest
      is a ring without it; the node itself keeps its stale fields. */
  method RemoveLink(nodes: seq<Link>)
    requires Ring(nodes)
    modifies nodes
    ensures |nodes| >= 2 ==> Ring(nodes[1..])
    ensures nodes[0].prev == old(nodes[0].prev) && nodes[0].next == old(nodes[0].next)
  {
    var l := nodes[0];
    var n := |nodes|;
    ghost var last := nodes[n - 1];
    assert l.prev == last && l.next == nodes[Succ(0, n)];
    l.next.prev := l.prev;
    l.prev.next := l.next;
    if n >= 2 {
      var rest := nodes[1..];
      forall i | 0 <= i < n - 1
        ensures rest[i].next == rest[Succ(i, n - 1)] && rest[Succ(i, n - 1)].prev == rest[i]
      {
        assert rest[i] == nodes[i + 1];
        if i + 1 < n - 1 {
          assert rest[Succ(i, n - 1)] == nodes[Succ(i + 1, n)];
          assert nodes[i + 1] != last || i + 1 == n - 1;
        }
      }
      assert Distinct(rest) by {
        forall i, j | 0 <= i < j < n - 1 ensures rest[i] != rest[j] {
          assert rest[i] == nodes[i + 1] && rest[j] == nodes[j + 1];
        }
      }
    }
  }

  /** InsertLinkBefore: a node outside the ring goes in just before the
      first node, which makes it the last of the sequence. */
  method InsertLinkBefore(l: Link, nodes: seq<Link>)
    requires Ring(nodes) && l !in nodes
    modifies l, nodes
    ensures Ring(nodes + [l])
  {
    var before := nodes[0];
    var n := |nodes|;
    ghost var last := nodes[n - 1];
    assert Succ(n - 1, n) == 0 && nodes[Succ(n - 1, n)].prev == nodes[n - 1];
    assert before.prev == last;
    l.next := before;
    l.prev := before.prev;
    l.prev.next := l;
    l.next.prev := l;
    var r := nodes + [l];
    forall i | 0 <= i < n + 1
      ensures r[i].next == r[Succ(i, n + 1)] && r[Succ(i, n + 1)].prev == r[i]
    {
      if i < n - 1 {
        assert r[i] == nodes[i] && r[Succ(i, n + 1)] == nodes[Succ(i, n)];
      }
    }
    assert Distinct(r) by {
      forall i, j | 0 <= i < j < n + 1 ensures r[i] != r[j] {
        if j < n { assert r[i] == nodes[i] && r[j] == nodes[j]; }
      }
    }
  }

  /** InsertLinkAfter: a node outside the ring goes in just after the first
      node. */
  method InsertLinkAfter(l: Link, nodes: seq<Link>)
    requires Ring(nodes) && l !in nodes
    modifies l, nodes
    ensures Ring([nodes[0], l] + nodes[1..])
  {
    var after := nodes[0];
    var n := |nodes|;
    assert after.next == nodes[Succ(0, n)];
    l.next := after.next;
    l.prev := after;
    l.prev.next := l;
    l.next.prev := l;
    var r := [nodes[0], l] + nodes[1..];
    forall i | 0 <= i < n + 1
      ensures r[i].next == r[Succ(i, n + 1)] && r[Succ(i, n + 1)].prev == r[i]
    {
      if 2 <= i {
        assert r[i] == nodes[i - 1] && r[Succ(i, n + 1)] == nodes[Succ(i - 1, n)];
      }
    }
    assert Distinct(r) by {
      forall i, j | 0 <= i < j < n + 1 ensures r[i] != r[j] {
        if i >= 2 { assert r[i] == nodes[i - 1] && r[j] == nodes[j - 1]; }
        else if i == 0 && j >= 2 { assert r[j] == nodes[j - 1]; }
      }
    }
  }
}
