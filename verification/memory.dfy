/**
 The memory the queue lives in: C strings, the `list_ele_t` nodes, and the
 heap of live nodes addressed by pointer. The heap is a value (a map from
 pointer to node), so every mutation of the queue is a function from one
 heap to the next; `malloc` and `free` become adding and removing keys.
 */
module Memory {

  /** An optional value: a possibly-NULL pointer, or a result that may be absent. */
  datatype Option<+T> = None | Some(value: T)

  /** An address in the node heap. `Null` is never the address of a live node. */
  type Ptr = nat

  const Null: Ptr := 0

  /** A C string: the characters before its terminating NUL, so it never contains one. */
  type Text = s: string | '\0' !in s

  /** `list_ele_t`: the element's own copy of its string and the link to the next element. */
  datatype Node = Node(value: Text, next: Ptr)

  /** Every live node, by address. */
  type Heap = map<Ptr, Node>

  /** No node lives at NULL. */
  predicate HeapOk(h: Heap) {
    Null !in h
  }

  /** The first pointer of a node sequence, or `Null` for the empty one. */
  function First(ns: seq<Ptr>): Ptr {
    if |ns| == 0 then Null else ns[0]
  }

  /** The last pointer of a node sequence, or `Null` for the empty one. */
  function Last(ns: seq<Ptr>): Ptr {
    if |ns| == 0 then Null else ns[|ns| - 1]
  }

  /**
   The pointers met by following `next` from `p` for at most `n` nodes,
   stopping early at a pointer that is not a live node.
   */
  function Chain(h: Heap, p: Ptr, n: nat): (ns: seq<Ptr>)
    ensures |ns| <= n
    ensures forall i :: 0 <= i < |ns| ==> ns[i] in h
    ensures |ns| > 0 ==> ns[0] == p
    decreases n
  {
    if n == 0 || p !in h then [] else [p] + Chain(h, h[p].next, n - 1)
  }

  /** No node occurs twice: the chain has no cycle and no sharing. */
  predicate Distinct(ns: seq<Ptr>) {
    forall i, j :: 0 <= i < j < |ns| ==> ns[i] != ns[j]
  }

  /**
   The nodes `ns` are live and form a NULL-terminated list in `h`: each
   node's `next` is the node after it, and the last node's `next` is NULL.
   */
  predicate Linked(h: Heap, ns: seq<Ptr>) {
    && (forall i :: 0 <= i < |ns| ==> ns[i] in h)
    && (forall i :: 0 <= i < |ns| - 1 ==> h[ns[i]].next == ns[i + 1])
    && (|ns| > 0 ==> h[ns[|ns| - 1]].next == Null)
  }

  /** The string stored at `p`, or the empty string if `p` is not live. */
  function ValueAt(h: Heap, p: Ptr): Text {
    if p in h then h[p].value else ""
  }

  /** The strings stored along a node sequence, in order. */
  function Values(h: Heap, ns: seq<Ptr>): (vs: seq<Text>)
    ensures |vs| == |ns|
  {
    seq(|ns|, i requires 0 <= i < |ns| => ValueAt(h, ns[i]))
  }

  /** Sequence reversal: position `i` holds what position `|s| - 1 - i` held. */
  function Rev<T>(s: seq<T>): (r: seq<T>)
    ensures |r| == |s|
    ensures forall i {:trigger r[i]} :: 0 <= i < |s| ==> r[i] == s[|s| - 1 - i]
  {
    seq(|s|, i requires 0 <= i < |s| => s[|s| - 1 - i])
  }

  lemma RevRev<T>(s: seq<T>)
    ensures Rev(Rev(s)) == s
  {
    var r := Rev(Rev(s));
    assert |r| == |s|;
    forall i | 0 <= i < |s|
      ensures r[i] == s[i]
    {
      assert r[i] == Rev(s)[|s| - 1 - i];
    }
  }

  /** A list laid out by `Linked` is exactly what `Chain` walks from its first node. */
  lemma {:induction false} LinkedChain(h: Heap, ns: seq<Ptr>)
    requires Linked(h, ns)
    ensures Chain(h, First(ns), |ns|) == ns
    decreases |ns|
  {
    if |ns| > 0 {
      var rest := ns[1..];
      assert Linked(h, rest);
      LinkedChain(h, rest);
      assert h[ns[0]].next == First(rest);
    }
  }

  /** In a linked list every node's `next` is its successor, or NULL for the last. */
  lemma LinkedNext(h: Heap, ns: seq<Ptr>, i: int)
    requires Linked(h, ns) && 0 <= i < |ns|
    ensures h[ns[i]].next == if i + 1 < |ns| then ns[i + 1] else Null
  {
  }

  /** Changing nodes outside a list leaves the list linked. */
  lemma LinkedFrame(h: Heap, h': Heap, ns: seq<Ptr>)
    requires Linked(h, ns)
    requires forall i :: 0 <= i < |ns| ==> ns[i] in h' && h'[ns[i]] == h[ns[i]]
    ensures Linked(h', ns)
  {
  }

  /** A reversed node sequence is still free of repeats. */
  lemma RevDistinct(ns: seq<Ptr>)
    requires Distinct(ns)
    ensures Distinct(Rev(ns))
  {
    var r := Rev(ns);
    forall i, j | 0 <= i < j < |r|
      ensures r[i] != r[j]
    {
      assert r[i] == ns[|ns| - 1 - i] && r[j] == ns[|ns| - 1 - j];
    }
  }

  /** The strings along a reversed list are the reversed strings, when no value changed. */
  lemma RevValues(h: Heap, h': Heap, ns: seq<Ptr>)
    requires forall i :: 0 <= i < |ns| ==> ns[i] in h && ns[i] in h' && h'[ns[i]].value == h[ns[i]].value
    ensures Values(h', Rev(ns)) == Rev(Values(h, ns))
  {
    var a := Values(h', Rev(ns));
    var b := Rev(Values(h, ns));
    forall i | 0 <= i < |ns|
      ensures a[i] == b[i]
    {
      assert Rev(ns)[i] == ns[|ns| - 1 - i];
    }
  }
}
