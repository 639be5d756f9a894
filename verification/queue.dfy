/**
 The queue of `queue.c` as its doc-comments describe it: a `queue_t` header
 with `head`, `tail` and `size` over a NULL-terminated list of `list_ele_t`
 nodes in the heap. A queue pointer that may be NULL is an `Option<Queue>`.

 Allocation is an oracle supplied by the caller: `node` is what `malloc`
 returned for the element (`Null` on failure, otherwise an address not yet
 live) and `textOk` says whether the string's `malloc` succeeded.

 Where the code departs from its documentation this module follows the
 documentation; module AsWritten models the code as written.
 */
module LinkedQueue {
  import opened Memory
  import opened CStrings

  /** `queue_t`. */
  datatype Queue = Queue(head: Ptr, tail: Ptr, size: int)

  /** The heap and queue header after an operation, and what it returned. */
  datatype Step<T> = Step(heap: Heap, q: Option<Queue>, ret: T)

  /** What `q_remove_head` returns and the caller's buffer after it (`None` for a NULL `sp`). */
  datatype Removal = Removal(ok: bool, sp: Option<seq<char>>)

  /** The nodes of the queue: `size` of them, followed from `head`. */
  function Nodes(h: Heap, q: Queue): seq<Ptr> {
    Chain(h, q.head, if q.size < 0 then 0 else q.size)
  }

  /**
   The queue invariant: `size` nodes are reachable from `head`, they are
   distinct and NULL-terminated, `head` is the first and `tail` the last,
   and both are NULL exactly when the queue is empty.
   */
  predicate Valid(h: Heap, q: Queue) {
    && HeapOk(h)
    && q.size >= 0
    && var ns := Nodes(h, q);
    && |ns| == q.size
    && Distinct(ns)
    && Linked(h, ns)
    && q.head == First(ns)
    && q.tail == Last(ns)
  }

  /** The abstract contents: the strings from head to tail. */
  function Contents(h: Heap, q: Queue): seq<Text> {
    Values(h, Nodes(h, q))
  }

  /** A valid queue is empty exactly when `head` is NULL, exactly when `tail` is NULL. */
  lemma EmptyIff(h: Heap, q: Queue)
    requires Valid(h, q)
    ensures q.size == 0 <==> q.head == Null
    ensures q.size == 0 <==> q.tail == Null
    ensures q.size == |Contents(h, q)|
  {
  }

  /** A list laid out by `Linked` from `head` to `tail` with the right count is a valid queue. */
  lemma ValidFromLinked(h: Heap, q: Queue, ns: seq<Ptr>)
    requires HeapOk(h) && Linked(h, ns) && Distinct(ns)
    requires q.size == |ns| && q.head == First(ns) && q.tail == Last(ns)
    ensures Valid(h, q) && Nodes(h, q) == ns
  {
    LinkedChain(h, ns);
  }

  /** `q_new`: a fresh queue is empty, or NULL when `malloc` fails. */
  function New(allocOk: bool): (r: Option<Queue>)
    ensures r.Some? <==> allocOk
    ensures r.Some? ==> forall h: Heap :: HeapOk(h) ==> Valid(h, r.value) && Contents(h, r.value) == []
  {
    if allocOk then Some(Queue(Null, Null, 0)) else None
  }

  /** `q_size`: the tracked counter, 0 for a NULL queue. */
  function Size(q: Option<Queue>): (r: int)
    ensures q.None? ==> r == 0
  {
    if q.None? then 0 else q.value.size
  }

  /** The counter `q_size` reports is the number of strings reachable from `head`. */
  lemma SizeCountsContents(h: Heap, q: Option<Queue>)
    requires q.Some? ==> Valid(h, q.value)
    ensures q.Some? ==> Size(q) == |Contents(h, q.value)| == |Nodes(h, q.value)|
    ensures q.None? ==> Size(q) == 0
  {
  }

  /** `q_insert_head` with the documented failure handling. */
  function InsertHead(h: Heap, q: Option<Queue>, s: Text, node: Ptr, textOk: bool): (r: Step<bool>)
    requires HeapOk(h) && node !in h
    requires q.Some? ==> Valid(h, q.value)
    ensures r.ret <==> q.Some? && node != Null && textOk
    ensures !r.ret ==> r.heap == h && r.q == q
    ensures r.ret ==> r.q.Some? && Valid(r.heap, r.q.value)
    ensures r.ret ==> Contents(r.heap, r.q.value) == [s] + Contents(h, q.value)
    ensures r.ret ==> Nodes(r.heap, r.q.value) == [node] + Nodes(h, q.value)
    ensures r.ret ==> r.q.value.size == q.value.size + 1
    ensures r.ret ==> r.q.value.head == node && node in r.heap && r.heap[node].value == s
    ensures r.ret ==> r.q.value.tail == (if q.value.size == 0 then node else q.value.tail)
    ensures r.ret ==> r.heap.Keys == h.Keys + {node} && forall p :: p in h ==> r.heap[p] == h[p]
  {
    if q.None? || node == Null then Step(h, q, false)
    else if !textOk then Step(h, q, false)
    else
      var q0 := q.value;
      var h' := h[node := Node(s, q0.head)];
      var q' := Queue(node, if q0.tail == Null then node else q0.tail, q0.size + 1);
      InsertHeadValid(h, q0, h', q', s, node);
      Step(h', Some(q'), true)
  }

  lemma InsertHeadValid(h: Heap, q: Queue, h': Heap, q': Queue, s: Text, node: Ptr)
    requires Valid(h, q) && node != Null && node !in h
    requires h' == h[node := Node(s, q.head)]
    requires q' == Queue(node, if q.tail == Null then node else q.tail, q.size + 1)
    ensures Valid(h', q') && Contents(h', q') == [s] + Contents(h, q)
    ensures Nodes(h', q') == [node] + Nodes(h, q)
  {
    var ns := Nodes(h, q);
    var ns' := [node] + ns;
    LinkedFrame(h, h', ns);
    assert Linked(h', ns');
    ValidFromLinked(h', q', ns');
    assert Values(h', ns') == [s] + Values(h, ns);
  }

  /** `q_insert_tail` with the documented failure handling. */
  function InsertTail(h: Heap, q: Option<Queue>, s: Text, node: Ptr, textOk: bool): (r: Step<bool>)
    requires HeapOk(h) && node !in h
    requires q.Some? ==> Valid(h, q.value)
    ensures r.ret <==> q.Some? && node != Null && textOk
    ensures !r.ret ==> r.heap == h && r.q == q
    ensures r.ret ==> r.q.Some? && Valid(r.heap, r.q.value)
    ensures r.ret ==> Contents(r.heap, r.q.value) == Contents(h, q.value) + [s]
    ensures r.ret ==> Nodes(r.heap, r.q.value) == Nodes(h, q.value) + [node]
    ensures r.ret ==> r.q.value.size == q.value.size + 1
    ensures r.ret ==> r.q.value.tail == node && node in r.heap && r.heap[node] == Node(s, Null)
    ensures r.ret ==> r.q.value.head == (if q.value.size == 0 then node else q.value.head)
    ensures r.ret ==> r.heap.Keys == h.Keys + {node}
    ensures r.ret ==> forall p :: p in h && p != q.value.tail ==> r.heap[p] == h[p]
  {
    if q.None? || node == Null then Step(h, q, false)
    else if !textOk then Step(h, q, false)
    else
      var q0 := q.value;
      var h1 := h[node := Node(s, Null)];
      if q0.tail == Null then
        var q' := Queue(node, node, q0.size + 1);
        InsertTailValid(h, q0, h1, q', s, node);
        Step(h1, Some(q'), true)
      else
        EmptyIff(h, q0);
        var h2 := h1[q0.tail := h1[q0.tail].(next := node)];
        var q' := Queue(q0.head, node, q0.size + 1);
        InsertTailValid(h, q0, h2, q', s, node);
        Step(h2, Some(q'), true)
  }

  lemma InsertTailValid(h: Heap, q: Queue, h': Heap, q': Queue, s: Text, node: Ptr)
    requires Valid(h, q) && node != Null && node !in h
    requires q.tail == Null ==> h' == h[node := Node(s, Null)] && q' == Queue(node, node, q.size + 1)
    requires q.tail != Null ==>
      && q.tail in h
      && h' == h[node := Node(s, Null)][q.tail := h[q.tail].(next := node)]
      && q' == Queue(q.head, node, q.size + 1)
    ensures Valid(h', q') && Contents(h', q') == Contents(h, q) + [s]
    ensures Nodes(h', q') == Nodes(h, q) + [node]
  {
    var ns := Nodes(h, q);
    var ns' := ns + [node];
    EmptyIff(h, q);
    forall i | 0 <= i < |ns'| - 1
      ensures h'[ns'[i]].next == ns'[i + 1]
    {
      if i < |ns| - 1 {
        assert ns[i] != ns[|ns| - 1];
      }
    }
    forall i | 0 <= i < |ns|
      ensures h'[ns[i]].value == h[ns[i]].value
    {
    }
    assert Linked(h', ns');
    ValidFromLinked(h', q', ns');
    assert Values(h', ns') == Values(h, ns) + [s];
  }

  /**
   `q_remove_head` with the documented behaviour: the copy into `sp` is
   terminated, and `tail` is reset when the last element goes.
   */
  function RemoveHead(h: Heap, q: Option<Queue>, sp: Option<seq<char>>, bufsize: nat): (r: Step<Removal>)
    requires q.Some? ==> Valid(h, q.value)
    requires sp.Some? ==> bufsize <= |sp.value|
    ensures r.ret.ok <==> q.Some? && q.value.size > 0
    ensures !r.ret.ok ==> r.heap == h && r.q == q && r.ret.sp == sp
    ensures r.ret.ok ==> r.q.Some? && Valid(r.heap, r.q.value)
    ensures r.ret.ok ==> Contents(r.heap, r.q.value) == Contents(h, q.value)[1..]
    ensures r.ret.ok ==> Nodes(r.heap, r.q.value) == Nodes(h, q.value)[1..]
    ensures r.ret.ok ==> r.q.value.size == q.value.size - 1
    ensures r.ret.ok ==> r.heap.Keys == h.Keys - {q.value.head} && forall p :: p in r.heap ==> r.heap[p] == h[p]
    ensures r.ret.ok && q.value.size == 1 ==> r.q.value.head == Null && r.q.value.tail == Null
    ensures r.ret.sp.Some? <==> sp.Some?
    ensures r.ret.ok && sp.Some? ==>
      var v := Contents(h, q.value)[0];
      && |r.ret.sp.value| == |sp.value|
      && r.ret.sp.value[bufsize..] == sp.value[bufsize..]
      && (bufsize > 0 ==> ReadCString(r.ret.sp.value) == Some(v[..Min(|v|, bufsize - 1)]))
  {
    if q.None? || q.value.head == Null then Step(h, q, Removal(false, sp))
    else
      var q0 := q.value;
      EmptyIff(h, q0);
      var sp' := if sp.Some? then Some(CopyOut(sp.value, h[q0.head].value, bufsize)) else None;
      var h' := h - {q0.head};
      var next := h[q0.head].next;
      var q' := Queue(next, if next == Null then Null else q0.tail, q0.size - 1);
      RemoveHeadValid(h, q0, h', q');
      Step(h', Some(q'), Removal(true, sp'))
  }

  lemma RemoveHeadValid(h: Heap, q: Queue, h': Heap, q': Queue)
    requires Valid(h, q) && q.size > 0
    requires h' == h - {q.head}
    requires q' == Queue(h[q.head].next, if h[q.head].next == Null then Null else q.tail, q.size - 1)
    ensures Valid(h', q') && Contents(h', q') == Contents(h, q)[1..]
    ensures Nodes(h', q') == Nodes(h, q)[1..]
    ensures Contents(h, q)[0] == h[q.head].value
  {
    var ns := Nodes(h, q);
    var ns' := ns[1..];
    forall i | 0 <= i < |ns'|
      ensures ns'[i] in h' && h'[ns'[i]] == h[ns'[i]]
    {
      assert ns'[i] == ns[i + 1] != ns[0];
    }
    LinkedFrame(h, h', ns');
    ValidFromLinked(h', q', ns');
    assert Values(h', ns') == Values(h, ns)[1..];
  }

  /**
   What `q_reverse` must achieve: the same nodes in the opposite order and
   still a valid queue, the same count, no node allocated or freed, no
   string changed, and no node outside the queue touched.
   */
  predicate IsReversal(h: Heap, q: Queue, h': Heap, q': Queue) {
    && Valid(h', q')
    && q'.size == q.size
    && Nodes(h', q') == Rev(Nodes(h, q))
    && h'.Keys == h.Keys
    && (forall p :: p in h ==> h'[p].value == h[p].value)
    && (forall p :: p in h && p !in Nodes(h, q) ==> h'[p] == h[p])
  }

  /** `q_reverse`: no effect on a NULL, empty or one-element queue; otherwise swaps `head` and `tail` and relinks. */
  method Reverse(h: Heap, q: Option<Queue>) returns (h': Heap, q': Option<Queue>)
    requires q.Some? ==> Valid(h, q.value)
    ensures q.None? ==> h' == h && q' == q
    ensures q.Some? && q.value.size <= 1 ==> h' == h && q' == q
    ensures q.Some? ==> q'.Some? && IsReversal(h, q.value, h', q'.value)
    ensures q.Some? ==> Contents(h', q'.value) == Rev(Contents(h, q.value))
    ensures q.Some? ==> q'.value.head == q.value.tail && q'.value.tail == q.value.head
    ensures q.Some? && q.value.size > 0 ==> q'.value.tail in h' && h'[q'.value.tail].next == Null
  {
    h', q' := h, q;
    if q.None? {
      return;
    }
    ghost var ns := Nodes(h, q.value);
    if q.value.head == Null || h[q.value.head].next == Null {
      assert |ns| <= 1;
      assert Rev(ns) == ns;
      return;
    }
    q' := Some(Queue(q.value.tail, q.value.head, q.value.size));
    h' := RelinkBackwards(h, q.value.head, ns);
    ReversedValid(h, q.value, h', q'.value);
  }

  /**
   The loop of `q_reverse`: walks a (prev, now, next) triple down the list
   from `first`, pointing each node back at its predecessor and the first
   node at NULL.
   */
  method RelinkBackwards(h: Heap, first: Ptr, ghost ns: seq<Ptr>) returns (h': Heap)
    requires HeapOk(h) && Linked(h, ns) && Distinct(ns)
    requires |ns| >= 2 && first == ns[0]
    ensures h'.Keys == h.Keys
    ensures forall p :: p in h ==> h'[p].value == h[p].value
    ensures forall p :: p in h && p !in ns ==> h'[p] == h[p]
    ensures forall i :: 0 < i < |ns| ==> h'[ns[i]].next == ns[i - 1]
    ensures h'[ns[0]].next == Null
  {
    var prev := first;
    var now := h[prev].next;
    LinkedNext(h, ns, 0);
    LinkedNext(h, ns, 1);
    var next := h[now].next;
    h' := h[prev := h[prev].(next := Null)];
    h' := h'[now := h'[now].(next := prev)];
    ghost var k := 1;
    RelinkStart(h, ns, h');
    while next != Null
      invariant 1 <= k < |ns|
      invariant prev == ns[k - 1] && now == ns[k]
      invariant next == (if k + 1 < |ns| then ns[k + 1] else Null)
      invariant RelinkedUpTo(h, h', ns, k)
      decreases |ns| - k
    {
      LinkedNext(h, ns, k + 1);
      prev := now;
      now := next;
      next := h'[now].next;
      ghost var before := h';
      h' := h'[now := h'[now].(next := prev)];
      k := k + 1;
      RelinkStep(h, before, ns, k, h');
    }
  }

  /**
   The loop invariant of `q_reverse`: nodes `ns[1..k]` point back at their
   predecessors, `ns[0]` points at NULL, the rest of the heap is as it was,
   and no string has changed.
   */
  predicate RelinkedUpTo(h: Heap, h': Heap, ns: seq<Ptr>, k: int)
    requires 0 <= k < |ns|
  {
    && h'.Keys == h.Keys
    && (forall p :: p in h ==> h'[p].value == h[p].value)
    && (forall p :: p in h && p !in ns ==> h'[p] == h[p])
    && (forall i :: k < i < |ns| ==> ns[i] in h && h'[ns[i]] == h[ns[i]])
    && (forall i :: 0 < i <= k ==> ns[i] in h && h'[ns[i]].next == ns[i - 1])
    && ns[0] in h && h'[ns[0]].next == Null
  }

  /** The two writes before the loop of `q_reverse` establish its invariant for the first two nodes. */
  lemma RelinkStart(h: Heap, ns: seq<Ptr>, h': Heap)
    requires Linked(h, ns) && Distinct(ns) && |ns| >= 2
    requires h' == h[ns[0] := h[ns[0]].(next := Null)][ns[1] := h[ns[1]].(next := ns[0])]
    ensures RelinkedUpTo(h, h', ns, 1)
  {
    assert ns[0] != ns[1];
    forall p | p in h && p !in ns
      ensures h'[p] == h[p]
    {
      assert p != ns[0] && p != ns[1];
    }
    forall i | 1 < i < |ns|
      ensures h'[ns[i]] == h[ns[i]]
    {
      assert ns[i] != ns[0] && ns[i] != ns[1];
    }
  }

  /** Pointing `ns[k]` back at `ns[k - 1]` extends the invariant by one node. */
  lemma RelinkStep(h: Heap, before: Heap, ns: seq<Ptr>, k: int, after: Heap)
    requires Distinct(ns) && 0 < k < |ns|
    requires RelinkedUpTo(h, before, ns, k - 1)
    requires after == before[ns[k] := before[ns[k]].(next := ns[k - 1])]
    ensures RelinkedUpTo(h, after, ns, k)
  {
    var x := ns[k];
    forall p | p in h && p !in ns
      ensures after[p] == h[p]
    {
      assert p != x;
    }
    forall i | k < i < |ns|
      ensures after[ns[i]] == h[ns[i]]
    {
      assert ns[i] != x;
    }
    forall i | 0 < i < k
      ensures after[ns[i]].next == ns[i - 1]
    {
      assert ns[i] != x;
    }
    assert ns[0] != x;
  }

  /** The relinked heap the reversal loop leaves behind is the reversal of the queue. */
  lemma ReversedValid(h: Heap, q: Queue, h': Heap, q': Queue)
    requires Valid(h, q) && q.size >= 2
    requires q' == Queue(q.tail, q.head, q.size)
    requires h'.Keys == h.Keys
    requires forall p :: p in h ==> h'[p].value == h[p].value
    requires forall p :: p in h && p !in Nodes(h, q) ==> h'[p] == h[p]
    requires forall i :: 0 < i < q.size ==> h'[Nodes(h, q)[i]].next == Nodes(h, q)[i - 1]
    requires h'[Nodes(h, q)[0]].next == Null
    ensures IsReversal(h, q, h', q')
    ensures Contents(h', q') == Rev(Contents(h, q))
  {
    var ns := Nodes(h, q);
    RevLinked(h', ns);
    RevDistinct(ns);
    ValidFromLinked(h', q', Rev(ns));
    RevValues(h, h', ns);
  }

  /** Pointing every node back at its predecessor links the reversed sequence. */
  lemma RevLinked(h': Heap, ns: seq<Ptr>)
    requires |ns| > 0
    requires forall i :: 0 <= i < |ns| ==> ns[i] in h'
    requires forall i :: 0 < i < |ns| ==> h'[ns[i]].next == ns[i - 1]
    requires h'[ns[0]].next == Null
    ensures Linked(h', Rev(ns))
  {
    var n := |ns|;
    var rs := Rev(ns);
    forall i | 0 <= i < n - 1
      ensures h'[rs[i]].next == rs[i + 1]
    {
      assert rs[i] == ns[n - 1 - i] && rs[i + 1] == ns[n - 1 - (i + 1)];
    }
  }

  /** Reversing twice restores the original heap and header, `head` and `tail` included. */
  lemma ReverseTwice(h0: Heap, q0: Queue, h1: Heap, q1: Queue, h2: Heap, q2: Queue)
    requires Valid(h0, q0)
    requires IsReversal(h0, q0, h1, q1) && IsReversal(h1, q1, h2, q2)
    ensures h2 == h0 && q2 == q0
  {
    var ns := Nodes(h0, q0);
    RevRev(ns);
    assert Nodes(h1, q1) == Rev(ns);
    assert Nodes(h2, q2) == ns;
    SameListSameQueue(h0, q0, h2, q2);
    forall p | p in h0 && p !in ns
      ensures p in h2 && h2[p] == h0[p]
    {
      assert p !in Rev(ns);
    }
    SameListSameHeap(h0, h2, ns);
  }

  /** Two valid headers over the same node list are the same header. */
  lemma SameListSameQueue(h: Heap, q: Queue, h': Heap, q': Queue)
    requires Valid(h, q) && Valid(h', q')
    requires Nodes(h', q') == Nodes(h, q)
    ensures q' == q
  {
  }

  /**
   Two heaps with the same addresses, the same strings, the same nodes
   outside a list, and that list linked in both, are the same heap.
   */
  lemma SameListSameHeap(h: Heap, h': Heap, ns: seq<Ptr>)
    requires Linked(h, ns) && Linked(h', ns)
    requires h'.Keys == h.Keys
    requires forall p :: p in h ==> h'[p].value == h[p].value
    requires forall p :: p in h && p !in ns ==> h'[p] == h[p]
    ensures h' == h
  {
    forall p | p in h
      ensures h'[p] == h[p]
    {
      if p in ns {
        var i :| 0 <= i < |ns| && ns[i] == p;
        LinkedNext(h, ns, i);
        LinkedNext(h', ns, i);
      }
    }
  }
}
