/** The string queue of queue.c: a singly linked list of elements, each
    owning a copy of one string, reached from a queue record that keeps the
    head, the tail and the element count.

    The C functions take a `queue_t *` that may be NULL; here they are
    module-level methods taking a `Queue?`. A failed `malloc` is an input
    flag. Releasing storage with `free` has no Dafny counterpart: an element
    that is unlinked from the chain is released, and `Free` reports the
    order in which it releases payloads, elements and the queue record. */
module StringQueue {
  import opened CStrings
  import opened Sequences

  /** A list element (`list_ele_t`): its own copy of one payload and the
      link to the next element. */
  class Node {
    var value: string
    var next: Node?

    constructor (s: string, link: Node?)
      ensures value == s && next == link
    {
      value := s;
      next := link;
    }
  }

  /** `ns` is a well-formed chain starting at `first`: distinct elements,
      each holding the matching payload of `vs` (a C string), each linked to
      the next, the last one ending the chain with a NULL link. */
  ghost predicate IsChain(ns: seq<Node>, vs: seq<string>, first: Node?)
    reads ns
  {
    |ns| == |vs| &&
    Distinct(ns) &&
    (forall i :: 0 <= i < |ns| ==> ns[i].value == vs[i] && NoNul(vs[i])) &&
    (forall i :: 0 <= i < |ns| - 1 ==> ns[i].next == ns[i + 1]) &&
    (if ns == [] then first == null else first == ns[0] && ns[|ns| - 1].next == null)
  }

  /** The queue record (`queue_t`). `nodes` is the chain of elements from
      head to tail and `contents` their payloads, both in queue order. */
  class Queue {
    var head: Node?
    var tail: Node?
    var size: int
    ghost var nodes: seq<Node>
    ghost var contents: seq<string>

    /** Everything the queue keeps except the tail pointer: the chain from
        `head`, and `size` counting its elements. */
    ghost predicate Chain()
      reads this, nodes
    {
      size == |nodes| && IsChain(nodes, contents, head)
    }

    /** The full invariant: in addition, `tail` is NULL exactly when the
        queue is empty and is otherwise the last element. */
    ghost predicate Valid()
      reads this, nodes
    {
      Chain() && (if nodes == [] then tail == null else tail == nodes[|nodes| - 1])
    }

    /** The element reached from `head` by following k links (NULL once the
        chain has ended). */
    ghost function Hop(k: nat): (r: Node?)
      reads this, nodes
    {
      if k == 0 then head
      else
        var p := Hop(k - 1);
        if p != null && p in nodes then p.next else null
    }

    /** Following links from `head` visits the elements in order and reaches
        NULL after exactly `size` steps. */
    lemma {:induction false} HopReachesNode(k: nat)
      requires Chain()
      ensures k < size ==> Hop(k) == nodes[k]
      ensures k >= size ==> Hop(k) == null
    {
      if k > 0 {
        HopReachesNode(k - 1);
      }
    }

    constructor ()
      ensures Valid() && contents == [] && nodes == []
      ensures head == null && tail == null && size == 0
    {
      head, tail, size := null, null, 0;
      nodes, contents := [], [];
    }
  }

  /** The elements of a queue, none for NULL. */
  ghost function Elements(q: Queue?): (ns: seq<Node>)
    reads q
  {
    if q == null then [] else q.nodes
  }

  /** The tail element of a queue, if there is one. */
  ghost function TailElement(q: Queue?): (t: set<Node>)
    reads q
  {
    if q == null || q.tail == null then {} else {q.tail}
  }

  /** q_new: an empty queue, or NULL when the allocation fails. */
  method New(allocOk: bool) returns (q: Queue?)
    ensures allocOk <==> q != null
    ensures q != null ==> fresh(q) && q.Valid() && q.contents == []
    ensures q != null ==> q.head == null && q.tail == null && q.size == 0
  {
    if !allocOk {
      return null;
    }
    q := new Queue();
  }

  /** What q_free hands back to the allocator, one event per `free` call. */
  datatype Release = Payload(s: string) | Element(node: Node) | QueueRecord

  /** The releases for a chain walked from head to tail: each element's
      payload and then the element itself. */
  function ReleaseOrder(ns: seq<Node>, vs: seq<string>): (rs: seq<Release>)
    requires |ns| == |vs|
    decreases |ns|
  {
    if ns == [] then []
    else ReleaseOrder(ns[..|ns| - 1], vs[..|vs| - 1]) + [Payload(vs[|vs| - 1]), Element(ns[|ns| - 1])]
  }

  /** The k-th element is released as the odd event 2k+1, right after its
      own payload. */
  lemma {:induction false} ReleaseOrderAt(ns: seq<Node>, vs: seq<string>, k: nat)
    requires |ns| == |vs| && k < |ns|
    ensures |ReleaseOrder(ns, vs)| == 2 * |ns|
    ensures ReleaseOrder(ns, vs)[2 * k] == Payload(vs[k])
    ensures ReleaseOrder(ns, vs)[2 * k + 1] == Element(ns[k])
  {
    var m := |ns| - 1;
    if k < m {
      ReleaseOrderAt(ns[..m], vs[..m], k);
    } else if m > 0 {
      ReleaseOrderAt(ns[..m], vs[..m], 0);
    }
  }

  /** An element is released as often as it occurs in the chain. */
  lemma {:induction false} ReleasedAsOftenAsLinked(ns: seq<Node>, vs: seq<string>, n: Node)
    requires |ns| == |vs|
    ensures multiset(ReleaseOrder(ns, vs))[Element(n)] == multiset(ns)[n]
  {
    if ns != [] {
      var m := |ns| - 1;
      ReleasedAsOftenAsLinked(ns[..m], vs[..m], n);
      assert ns == ns[..m] + [ns[m]];
    }
  }

  lemma {:induction false} DistinctOccursOnce(ns: seq<Node>, k: nat)
    requires k < |ns|
    requires forall i, j :: 0 <= i < j < |ns| ==> ns[i] != ns[j]
    ensures multiset(ns)[ns[k]] == 1
  {
    var m := |ns| - 1;
    assert ns == ns[..m] + [ns[m]];
    if k < m {
      DistinctOccursOnce(ns[..m], k);
    } else {
      assert ns[k] !in ns[..m];
    }
  }

  /** q_free releases every element of a valid queue exactly once. */
  lemma ReleasedOnce(ns: seq<Node>, vs: seq<string>, k: nat)
    requires |ns| == |vs| && k < |ns|
    requires Distinct(ns)
    ensures multiset(ReleaseOrder(ns, vs))[Element(ns[k])] == 1
  {
    DistinctPairwise(ns);
    ReleasedAsOftenAsLinked(ns, vs, ns[k]);
    DistinctOccursOnce(ns, k);
  }

  /** q_free: nothing for NULL; otherwise walks from head, releasing each
      payload and then its element, and finally the queue record. It reads
      only the chain, so it also tears down a queue whose tail pointer was
      left NULL by the tail insertion as written. */
  method Free(q: Queue?) returns (released: seq<Release>)
    requires q != null ==> q.Chain()
    modifies q
    ensures q == null ==> released == []
    ensures q != null ==> q.head == null
    ensures q != null ==> released == ReleaseOrder(old(q.nodes), old(q.contents)) + [QueueRecord]
  {
    released := [];
    if q != null {
      if q.head != null {
        ghost var ns, vs := q.nodes, q.contents;
        ghost var i := 0;
        while q.head != null
          invariant 0 <= i <= |ns|
          invariant q.head == if i < |ns| then ns[i] else null
          invariant released == ReleaseOrder(ns[..i], vs[..i])
          decreases |ns| - i
        {
          var tmp := q.head;
          released := released + [Payload(tmp.value)];
          q.head := tmp.next;
          released := released + [Element(tmp)];
          assert ns[..i + 1][..i] == ns[..i] && vs[..i + 1][..i] == vs[..i];
          i := i + 1;
        }
        assert ns[..i] == ns && vs[..i] == vs;
      }
      released := released + [QueueRecord];
    }
  }

  /** q_insert_head: false, with nothing changed, for NULL or when the
      element or its payload copy cannot be allocated; otherwise `s` becomes
      the first element, and also the tail if the queue was empty. */
  method InsertHead(q: Queue?, s: string, nodeAlloc: bool, payloadAlloc: bool) returns (ok: bool)
    requires q != null ==> q.Valid()
    requires NoNul(s)
    modifies q
    ensures ok <==> q != null && nodeAlloc && payloadAlloc
    ensures q != null ==> q.Valid()
    ensures q != null && !ok ==> unchanged(q)
    ensures ok ==> q.contents == [s] + old(q.contents) && q.size == old(q.size) + 1
    ensures ok ==> fresh(q.head) && q.nodes == [q.head] + old(q.nodes)
    ensures ok ==> q.tail == if old(q.nodes) == [] then q.head else old(q.tail)
  {
    if q == null {
      return false;
    }
    if !nodeAlloc {
      return false;
    }
    var n := new Node(s, null);
    if !payloadAlloc {
      // the element is released unlinked
      return false;
    }
    if q.head == null {
      q.tail := n;
    }
    LinkFront(q, n, s);
    ok := true;
  }

  /** The new element `n`, holding `s`, linked in front of `head` and
      counted; the tail pointer is left alone. */
  method LinkFront(q: Queue, n: Node, s: string)
    requires q.Chain() && n !in q.nodes
    requires n.value == s && NoNul(s)
    modifies q, n
    ensures q.Chain() && q.head == n && q.tail == old(q.tail)
    ensures q.nodes == [n] + old(q.nodes) && q.contents == [s] + old(q.contents)
  {
    n.next := q.head;
    q.head := n;
    q.size := q.size + 1;
    assert ([n] + q.nodes)[1..] == q.nodes;
    q.nodes, q.contents := [n] + q.nodes, [s] + q.contents;
  }

  /** The new element `n`, holding `s`, linked after the tail element,
      made the tail and counted. */
  method LinkAfterTail(q: Queue, n: Node, s: string)
    requires q.Valid() && q.tail != null && n !in q.nodes
    requires n.value == s && n.next == null && NoNul(s)
    modifies q, q.tail, n
    ensures q.Valid() && q.head == old(q.head) && q.tail == n
    ensures q.nodes == old(q.nodes) + [n] && q.contents == old(q.contents) + [s]
  {
    DistinctAppend(q.nodes, n);
    DistinctPairwise(q.nodes);
    n.next := q.tail.next;
    q.tail.next := n;
    q.tail := n;
    q.size := q.size + 1;
    q.nodes, q.contents := q.nodes + [n], q.contents + [s];
  }

  /** q_insert_tail: false, with nothing changed, for NULL or when the
      element or its payload copy cannot be allocated; otherwise `s` becomes
      the last element and the new tail, also when the queue was empty. */
  method InsertTail(q: Queue?, s: string, nodeAlloc: bool, payloadAlloc: bool) returns (ok: bool)
    requires q != null ==> q.Valid()
    requires NoNul(s)
    modifies q, TailElement(q)
    ensures ok <==> q != null && nodeAlloc && payloadAlloc
    ensures q != null ==> q.Valid()
    ensures q != null && !ok ==> unchanged(q) && unchanged(q.nodes)
    ensures ok ==> q.contents == old(q.contents) + [s] && q.size == old(q.size) + 1
    ensures ok ==> fresh(q.tail) && q.nodes == old(q.nodes) + [q.tail]
    ensures ok && old(q.nodes) == [] ==> q.head == q.tail
    ensures ok && old(q.nodes) != [] ==> q.head == old(q.head)
  {
    if q == null {
      return false;
    }
    if !nodeAlloc {
      return false;
    }
    var n := new Node(s, null);
    if !payloadAlloc {
      // the element is released unlinked
      return false;
    }
    if q.tail == null {
      LinkFront(q, n, s);
      q.tail := n;
    } else {
      LinkAfterTail(q, n, s);
    }
    ok := true;
  }

  /** The tail pointer as q_insert_tail, written as it is, leaves it: NULL,
      or the last element. */
  ghost predicate TailInChain(q: Queue)
    reads q
  {
    q.tail == null || (q.nodes != [] && q.tail == q.nodes[|q.nodes| - 1])
  }

  /** q_insert_tail as written at queue.c:80-102, payload copy aside: when
      `tail` is NULL the element is linked in front of `head` and `tail` is
      left NULL, so on an empty queue the invariant is lost and the next
      tail insertion goes to the front. */
  method InsertTailAsWritten(q: Queue?, s: string, nodeAlloc: bool) returns (ok: bool)
    requires q != null ==> q.Chain() && TailInChain(q)
    requires NoNul(s)
    modifies q, TailElement(q)
    ensures ok <==> q != null && nodeAlloc
    ensures q != null ==> q.Chain() && TailInChain(q)
    ensures q != null && !ok ==> unchanged(q)
    ensures ok ==> q.size == old(q.size) + 1
    ensures ok && old(q.tail) == null ==> q.contents == [s] + old(q.contents) && q.tail == null
    ensures ok && old(q.tail) != null ==> q.contents == old(q.contents) + [s] && fresh(q.tail)
  {
    if q == null {
      return false;
    }
    if !nodeAlloc {
      return false;
    }
    var n := new Node(s, null);
    if q.tail == null {
      LinkFront(q, n, s);
    } else {
      LinkAfterTail(q, n, s);
    }
    ok := true;
  }

  /** Two tail insertions, "a" then "b", into a new queue with the code as
      written: "b" ends up first and the tail is still NULL. */
  method TailInsertAsWrittenWitness() returns (front: string, tailIsNull: bool)
    ensures front == "b" && tailIsNull
  {
    var q := New(true);
    var ok := InsertTailAsWritten(q, "a", true);
    ok := InsertTailAsWritten(q, "b", true);
    assert q.contents == ["b", "a"];
    front := q.head.value;
    tailIsNull := q.tail == null;
  }

  /** q_remove_head: false, with nothing changed, for NULL or an empty
      queue. Otherwise the first element is unlinked and released, the tail
      is cleared exactly when the queue becomes empty, and when `sp` is
      non-NULL it receives at most bufsize - 1 characters of the removed
      payload and a terminator. A capacity of 0 leaves `sp` untouched. */
  method RemoveHead(q: Queue?, sp: array?<char>, bufsize: nat) returns (ok: bool)
    requires q != null ==> q.Valid()
    requires sp != null ==> bufsize <= sp.Length
    modifies q, sp
    ensures ok <==> q != null && old(q.contents) != []
    ensures q != null ==> q.Valid()
    ensures q != null && !ok ==> unchanged(q)
    ensures ok ==> q.contents == old(q.contents)[1..] && q.nodes == old(q.nodes)[1..]
    ensures ok ==> q.size == old(q.size) - 1
    ensures ok ==> (q.tail == null <==> q.contents == [])
    ensures sp != null && ok && bufsize > 0 ==>
      sp[..] == BoundedCopy(old(sp[..]), old(q.contents)[0], bufsize)
    ensures sp != null && (!ok || bufsize == 0) ==> sp[..] == old(sp[..])
  {
    if q == null || q.head == null {
      return false;
    }
    var ptr := q.head;
    if sp != null && bufsize > 0 {
      var v := ptr.value;
      var k := CopyLength(v, bufsize);
      forall i | 0 <= i < k {
        sp[i] := v[i];
      }
      sp[k] := NUL;
      assert sp[..] == BoundedCopy(old(sp[..]), v, bufsize) by {
        var r := BoundedCopy(old(sp[..]), v, bufsize);
        assert forall i :: 0 <= i < sp.Length ==> sp[..][i] == r[i];
      }
    }
    q.head := q.head.next;
    if q.head == null {
      q.tail := null;
    }
    q.size := q.size - 1;
    q.nodes, q.contents := q.nodes[1..], q.contents[1..];
    ok := true;
  }

  /** q_size: 0 for NULL, otherwise the count, which is the number of
      elements reachable from head before the chain ends. */
  method Size(q: Queue?) returns (n: int)
    requires q != null ==> q.Valid()
    ensures q == null ==> n == 0
    ensures q != null ==> n == |q.contents|
    ensures q != null ==> forall k: nat :: q.Hop(k) != null <==> k < n
  {
    if q == null {
      return 0;
    }
    n := q.size;
    forall k: nat
      ensures q.Hop(k) != null <==> k < n
    {
      q.HopReachesNode(k);
    }
  }

  /** q_reverse: nothing for NULL or an empty queue; otherwise the links are
      turned around in place, so the same elements appear in reverse order
      and the old head becomes the tail. */
  method Reverse(q: Queue?)
    requires q != null ==> q.Valid()
    modifies q, Elements(q)
    ensures q != null ==> q.Valid() && q.size == old(q.size)
    ensures q != null ==> q.nodes == Reversed(old(q.nodes))
    ensures q != null ==> q.contents == Reversed(old(q.contents))
    ensures q != null ==> multiset(q.nodes) == multiset(old(q.nodes))
    ensures q != null && old(q.nodes) != [] ==> q.head == old(q.tail) && q.tail == old(q.head)
  {
    if q == null || q.head == null {
      return;
    }
    ReversedPermutation(q.nodes);
    ReverseLinks(q);
  }

  /** Reversing twice restores the queue's order, its head and its tail. */
  method ReverseTwice(q: Queue)
    requires q.Valid()
    modifies q, q.nodes
    ensures q.Valid()
    ensures q.nodes == old(q.nodes) && q.contents == old(q.contents)
    ensures q.head == old(q.head) && q.tail == old(q.tail)
  {
    Reverse(q);
    assert forall n :: n in Reversed(old(q.nodes)) ==> n in old(q.nodes);
    Reverse(q);
    ReversedInvolutive(old(q.nodes));
    ReversedInvolutive(old(q.contents));
  }

  /** The non-empty case of q_reverse. */
  method ReverseLinks(q: Queue)
    requires q.Valid() && q.head != null
    modifies q, q.nodes
    ensures q.Valid() && q.size == old(q.size)
    ensures q.nodes == Reversed(old(q.nodes)) && q.contents == Reversed(old(q.contents))
    ensures q.head == old(q.tail) && q.tail == old(q.head)
  {
    ghost var ns, vs := q.nodes, q.contents;
    q.nodes, q.contents := Reversed(ns), Reversed(vs);
    q.tail := q.head;
    var prev := ReverseChain(q.head, ns, vs);
    q.head := prev;
  }

  /** The chain `ns` from `first`, with its links turned around: it is the
      reversed chain, it starts at the old last element and it ends at
      `first`. */
  method ReverseChain(first: Node, ghost ns: seq<Node>, ghost vs: seq<string>) returns (prev: Node)
    requires IsChain(ns, vs, first)
    modifies ns
    ensures |ns| > 0 && Reversed(ns)[|ns| - 1] == first && prev == ns[|ns| - 1]
    ensures IsChain(Reversed(ns), Reversed(vs), prev)
  {
    var last := FlipLinks(first, ns, vs);
    ReversedChain(ns, vs);
    prev := last;
  }

  /** The pointer-reversal sweep of q_reverse: walks the chain `ns` from
      `first` with prev/cur/next, pointing each element back at its
      predecessor, and returns the old last element. Payloads are untouched. */
  method FlipLinks(first: Node, ghost ns: seq<Node>, ghost vs: seq<string>) returns (prev: Node?)
    requires IsChain(ns, vs, first)
    modifies ns
    ensures ns != [] && prev == ns[|ns| - 1] && ns[0] == first
    ensures forall k :: 0 < k < |ns| ==> ns[k].next == ns[k - 1]
    ensures ns[0].next == null
    ensures forall k :: 0 <= k < |ns| ==> ns[k].value == vs[k] && NoNul(vs[k])
  {
    ghost var n := |ns|;
    DistinctPairwise(ns);
    prev := null;
    var cur: Node? := first;
    var next: Node? := null;
    ghost var i := 0;
    while cur != null
      invariant 0 <= i <= n
      invariant cur == if i < n then ns[i] else null
      invariant prev == if i == 0 then null else ns[i - 1]
      invariant forall k :: 0 < k < i ==> ns[k].next == ns[k - 1]
      invariant 0 < i ==> ns[0].next == null
      invariant forall k :: i <= k < n - 1 ==> ns[k].next == ns[k + 1]
      invariant i < n ==> ns[n - 1].next == null
      invariant forall k :: 0 <= k < n ==> ns[k].value == vs[k] && NoNul(vs[k])
      decreases n - i
    {
      next := cur.next;
      cur.next := prev;
      prev := cur;
      cur := next;
      i := i + 1;
    }
  }

  /** The links left by the reversal sweep (each element pointing back to
      its predecessor, the old first one to NULL) form the reversed chain,
      starting at the old last element. */
  lemma ReversedChain(ns: seq<Node>, vs: seq<string>)
    requires |ns| == |vs| > 0
    requires Distinct(ns)
    requires forall k :: 0 <= k < |ns| ==> ns[k].value == vs[k] && NoNul(vs[k])
    requires forall k :: 0 < k < |ns| ==> ns[k].next == ns[k - 1]
    requires ns[0].next == null
    ensures IsChain(Reversed(ns), Reversed(vs), ns[|ns| - 1])
  {
    var n, rs := |ns|, Reversed(ns);
    DistinctPairwise(ns);
    forall j, l | 0 <= j < l < n
      ensures rs[j] != rs[l]
    {
      assert rs[j] == ns[n - 1 - j] && rs[l] == ns[n - 1 - l];
    }
    DistinctPairwise(rs);
    forall j | 0 <= j < n - 1
      ensures rs[j].next == rs[j + 1]
    {
      assert rs[j] == ns[n - 1 - j] && rs[j + 1] == ns[n - 1 - j - 1];
    }
  }

  /** A string with no NUL in it, inserted at either end of a new queue and
      removed into a buffer one longer than it, reads back unchanged. */
  method InsertRemoveRoundTrip(s: string, atHead: bool) returns (out: Option<string>)
    requires NoNul(s)
    ensures out == Some(s)
  {
    var q := New(true);
    var ok;
    if atHead {
      ok := InsertHead(q, s, true, true);
    } else {
      ok := InsertTail(q, s, true, true);
    }
    var sp := new char[|s| + 1];
    ghost var before := sp[..];
    ok := RemoveHead(q, sp, |s| + 1);
    BoundedCopyReadsBack(before, s, |s| + 1);
    out := CString(sp[..]);
  }

  /** Two removals from a queue holding exactly `x` and then `y` give `x`
      first and `y` second, and leave the queue empty. */
  method RemoveTwo(q: Queue, x: string, y: string) returns (first: Option<string>, second: Option<string>)
    requires q.Valid() && q.contents == [x, y]
    modifies q
    ensures q.Valid() && q.contents == []
    ensures first == Some(x) && second == Some(y)
  {
    assert NoNul(x) && NoNul(y) by {
      assert q.nodes[0].value == x && q.nodes[1].value == y;
    }
    var sp := new char[|x| + |y| + 1];
    ghost var before := sp[..];
    var ok := RemoveHead(q, sp, |x| + 1);
    BoundedCopyReadsBack(before, x, |x| + 1);
    first := CString(sp[..]);
    before := sp[..];
    ok := RemoveHead(q, sp, |y| + 1);
    BoundedCopyReadsBack(before, y, |y| + 1);
    second := CString(sp[..]);
  }

  /** Tail insertions come out of the head in insertion order. */
  method FifoScenario() returns (first: Option<string>, second: Option<string>)
    ensures first == Some("a") && second == Some("b")
  {
    var q := New(true);
    var ok := InsertTail(q, "a", true, true);
    ok := InsertTail(q, "b", true, true);
    first, second := RemoveTwo(q, "a", "b");
  }

  /** On any valid queue, a string inserted at the head and removed again
      into a buffer one longer than it reads back unchanged, and the queue
      holds what it held before. */
  method HeadRoundTrip(q: Queue, s: string) returns (out: Option<string>)
    requires q.Valid() && NoNul(s)
    modifies q
    ensures q.Valid() && q.contents == old(q.contents)
    ensures out == Some(s)
  {
    var ok := InsertHead(q, s, true, true);
    var sp := new char[|s| + 1];
    ghost var before := sp[..];
    ok := RemoveHead(q, sp, |s| + 1);
    BoundedCopyReadsBack(before, s, |s| + 1);
    out := CString(sp[..]);
  }

  /** After a reversal the element inserted last at the tail comes out of
      the head first. */
  method ReverseScenario() returns (first: Option<string>)
    ensures first == Some("b")
  {
    var q := New(true);
    var ok := InsertTail(q, "a", true, true);
    ok := InsertTail(q, "b", true, true);
    Reverse(q);
    assert q.contents == ["b", "a"];
    var sp := new char[2];
    ghost var before := sp[..];
    ok := RemoveHead(q, sp, 2);
    BoundedCopyReadsBack(before, "b", 2);
    first := CString(sp[..]);
  }

  /** q_sort: its body is empty, so it changes nothing (it modifies no
      object); that is what its comment asks for NULL, an empty queue and a
      single element. */
  method Sort(q: Queue?)
    requires q != null ==> q.Valid()
    ensures q != null ==> q.Valid()
  {
  }
}
