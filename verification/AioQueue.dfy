/** The doubly linked queues of the event loop: the links are inside the handles' own nodes. */
module AioQueue {
  import opened Sequences

  class Link {
    var prev: Link?
    var next: Link?

    constructor ()
    {
      prev, next := null, null;
    }
  }

  /** The i-th node, or null outside the queue. */
  function NodeAt(q: seq<Link>, i: int): Link? {
    if 0 <= i < |q| then q[i] else null
  }

  ghost predicate LinkedAt(q: seq<Link>, i: nat)
    requires i < |q|
    reads q[i]
  {
    q[i].prev == NodeAt(q, i - 1) && q[i].next == NodeAt(q, i + 1)
  }

  /** Head and tail hold exactly the nodes of q, in that order. */
  ghost predicate IsQueue(head: Link?, tail: Link?, q: seq<Link>)
    reads q
  {
    && NoDuplicates(q) && head == NodeAt(q, 0) && tail == NodeAt(q, |q| - 1)
    && forall i :: 0 <= i < |q| ==> LinkedAt(q, i)
  }

  method Append(head: Link?, tail: Link?, node: Link, ghost q: seq<Link>) returns (head': Link?, tail': Link?)
    requires IsQueue(head, tail, q) && node !in q
    modifies node, tail
    ensures IsQueue(head', tail', q + [node])
  {
    head', tail' := head, tail;
    if head' == null {
      node.next := null;
      node.prev := null;
      head', tail' := node, node;
    } else {
      tail'.next := node;
      node.prev := tail';
      node.next := null;
      tail' := node;
    }
    ghost var r := q + [node];
    forall k | 0 <= k < |r|
      ensures LinkedAt(r, k)
    {
      if k < |q| {
        assert old(LinkedAt(q, k)) && r[k] == q[k] && q[k] in q;
        OnlyOnce(q, k);
      }
    }
  }

  function Without(q: seq<Link>, i: nat): seq<Link>
    requires i < |q|
  {
    q[..i] + q[i + 1..]
  }

  method Detach(head: Link?, tail: Link?, node: Link, ghost q: seq<Link>, ghost i: nat)
      returns (head': Link?, tail': Link?)
    requires IsQueue(head, tail, q) && i < |q| && q[i] == node
    modifies node.prev, node.next
    ensures IsQueue(head', tail', Without(q, i))
  {
    hide NoDuplicates;
    head', tail' := head, tail;
    assert LinkedAt(q, i);
    WithoutDistinct(q, i);
    ghost var before, after := NodeAt(q, i - 1), NodeAt(q, i + 1);
    if node.prev != null {
      node.prev.next := node.next;
    } else {
      head' := node.next;
    }
    assert node.next == after by { OnlyOnce(q, i); }
    if node.next != null {
      node.next.prev := node.prev;
    } else {
      tail' := node.prev;
    }
    ghost var r := Without(q, i);
    forall k | 0 <= k < |r|
      ensures LinkedAt(r, k)
    {
      var m := if k < i then k else k + 1;
      assert old(LinkedAt(q, m));
      OnlyOnce(q, m);
      assert r[k] == q[m];
    }
  }

  /** A node is nowhere else in the queue. */
  lemma OnlyOnce(q: seq<Link>, i: nat)
    requires NoDuplicates(q) && i < |q|
    ensures forall k :: k != i ==> NodeAt(q, k) != q[i]
  {
  }

  lemma WithoutDistinct(q: seq<Link>, i: nat)
    requires NoDuplicates(q) && i < |q|
    ensures NoDuplicates(Without(q, i))
  {
    var r := Without(q, i);
    assert forall k :: 0 <= k < |r| ==> r[k] == q[if k < i then k else k + 1];
  }

  method Concat(head1: Link?, tail1: Link?, head2: Link?, tail2: Link?, ghost q1: seq<Link>, ghost q2: seq<Link>)
      returns (head': Link?, tail': Link?)
    requires IsQueue(head1, tail1, q1) && IsQueue(head2, tail2, q2)
    requires forall x :: x in q1 ==> x !in q2
    modifies tail1, head2
    ensures IsQueue(head', tail', q1 + q2)
  {
    hide NoDuplicates;
    ConcatDistinct(q1, q2);
    head', tail' := head1, tail1;
    if head2 != null {
      if head' != null {
        tail'.next := head2;
        head2.prev := tail';
      } else {
        head' := head2;
      }
      tail' := tail2;
    }
    ghost var r := q1 + q2;
    forall k | 0 <= k < |r|
      ensures LinkedAt(r, k)
    {
      if k < |q1| {
        assert old(LinkedAt(q1, k)) && r[k] == q1[k] && q1[k] in q1;
        OnlyOnce(q1, k);
      } else {
        assert old(LinkedAt(q2, k - |q1|)) && r[k] == q2[k - |q1|] && q2[k - |q1|] in q2;
        OnlyOnce(q2, k - |q1|);
      }
    }
  }

  lemma ConcatDistinct(q1: seq<Link>, q2: seq<Link>)
    requires NoDuplicates(q1) && NoDuplicates(q2) && forall x :: x in q1 ==> x !in q2
    ensures NoDuplicates(q1 + q2)
  {
    var r := q1 + q2;
    forall i, j | 0 <= i < j < |r|
      ensures r[i] != r[j]
    {
      if i < |q1| <= j {
        assert q1[i] in q1 && q2[j - |q1|] in q2;
      }
    }
  }
}
