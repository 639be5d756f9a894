/**
 `queue.c` as the code is written, where it departs from its own
 doc-comments. An operation either completes or reaches C undefined
 behaviour (a write through NULL or through a freed pointer, or a copy past
 the end of the caller's buffer), which is `Undefined`.

 Each divergence is stated as a lemma beside the documented behaviour that
 LinkedQueue models. Where the code does not diverge, the as-written
 operation is shown to agree with LinkedQueue: inserts that allocate no
 element for a NULL queue and meet no failed string allocation, and
 removals from a queue of size other than 1, either without a buffer or
 into a buffer with room for the string and its NUL.
 */
module AsWritten {
  import opened Memory
  import opened CStrings
  import LQ = LinkedQueue

  datatype Exec<T> = Ok(step: LQ.Step<T>) | Undefined

  /** A node `malloc` handed out and nothing ever wrote to; its contents are immaterial. */
  const Uninitialised: Node := Node("", Null)

  /**
   `q_insert_head` as written: the element is allocated before `q` is
   checked, so a NULL `q` leaks it, and the string's `malloc` is never
   checked, so its failure writes through NULL.
   */
  function InsertHead(h: Heap, q: Option<LQ.Queue>, s: Text, node: Ptr, textOk: bool): (r: Exec<bool>)
    requires HeapOk(h) && node !in h
    ensures r.Undefined? <==> q.Some? && node != Null && !textOk
    ensures r.Ok? ==> (r.step.ret <==> q.Some? && node != Null)
    ensures r.Ok? ==> r.step.heap.Keys == h.Keys + (if node == Null then {} else {node})
  {
    if node == Null || q.None? then
      Ok(LQ.Step(if node == Null then h else h[node := Uninitialised], q, false))
    else if !textOk then Undefined
    else
      var q0 := q.value;
      var h' := h[node := Node(s, q0.head)];
      Ok(LQ.Step(h', Some(LQ.Queue(node, if q0.tail == Null then node else q0.tail, q0.size + 1)), true))
  }

  /**
   `q_insert_tail` as written: the same leak and unchecked string
   allocation, and a stale `tail` is written through.
   */
  function InsertTail(h: Heap, q: Option<LQ.Queue>, s: Text, node: Ptr, textOk: bool): (r: Exec<bool>)
    requires HeapOk(h) && node !in h
    ensures r.Undefined? <==>
      q.Some? && node != Null && (!textOk || (q.value.tail != Null && q.value.tail !in h))
    ensures r.Ok? ==> (r.step.ret <==> q.Some? && node != Null)
    ensures r.Ok? ==> r.step.heap.Keys == h.Keys + (if node == Null then {} else {node})
  {
    if q.None? || node == Null then
      Ok(LQ.Step(if node == Null then h else h[node := Uninitialised], q, false))
    else if !textOk then Undefined
    else
      var q0 := q.value;
      var h1 := h[node := Node(s, Null)];
      if q0.tail == Null then
        Ok(LQ.Step(h1, Some(LQ.Queue(node, node, q0.size + 1)), true))
      else if q0.tail !in h then Undefined
      else
        Ok(LQ.Step(h1[q0.tail := h1[q0.tail].(next := node)], Some(LQ.Queue(q0.head, node, q0.size + 1)), true))
  }

  /**
   `q_remove_head` as written: `strncpy` with `bufsize - 1` in `size_t`
   arithmetic and no terminator, and `tail` left pointing at the freed
   node when the last element goes.
   */
  function RemoveHead(h: Heap, q: Option<LQ.Queue>, sp: Option<seq<char>>, bufsize: SizeT): (r: Exec<LQ.Removal>)
    requires sp.Some? ==> bufsize <= |sp.value|
    ensures r.Undefined? <==>
      q.Some? && q.value.head != Null &&
      (q.value.head !in h || (sp.Some? && SizeMinusOne(bufsize) > |sp.value|))
    ensures r.Ok? ==> (r.step.ret.ok <==> q.Some? && q.value.head != Null)
    ensures r.Ok? && r.step.ret.ok ==> r.step.q.Some? && r.step.q.value.tail == q.value.tail
  {
    if q.None? || q.value.head == Null then Ok(LQ.Step(h, q, LQ.Removal(false, sp)))
    else if q.value.head !in h then Undefined
    else
      var q0 := q.value;
      var n := SizeMinusOne(bufsize);
      if sp.Some? && n > |sp.value| then Undefined
      else
        var sp' := if sp.Some? then Some(StrNCpy(sp.value, h[q0.head].value, n)) else None;
        var q' := LQ.Queue(h[q0.head].next, q0.tail, q0.size - 1);
        Ok(LQ.Step(h - {q0.head}, Some(q'), LQ.Removal(true, sp')))
  }

  /** `q_size` as written: reads `q->size` even when `q` is NULL. */
  function Size(h: Heap, q: Option<LQ.Queue>): (r: Exec<int>)
    ensures r.Undefined? <==> q.None?
    ensures r.Ok? ==> r.step.ret == LQ.Size(q) && r.step.heap == h && r.step.q == q
  {
    if q.None? then Undefined else Ok(LQ.Step(h, q, q.value.size))
  }

  // Where the code keeps to its documentation, it computes what LinkedQueue computes.

  lemma InsertHeadAgrees(h: Heap, q: Option<LQ.Queue>, s: Text, node: Ptr, textOk: bool)
    requires HeapOk(h) && node !in h
    requires q.Some? ==> LQ.Valid(h, q.value)
    requires q.None? ==> node == Null
    requires node != Null ==> textOk
    ensures InsertHead(h, q, s, node, textOk) == Ok(LQ.InsertHead(h, q, s, node, textOk))
  {
  }

  lemma InsertTailAgrees(h: Heap, q: Option<LQ.Queue>, s: Text, node: Ptr, textOk: bool)
    requires HeapOk(h) && node !in h
    requires q.Some? ==> LQ.Valid(h, q.value)
    requires q.None? ==> node == Null
    requires node != Null ==> textOk
    ensures InsertTail(h, q, s, node, textOk) == Ok(LQ.InsertTail(h, q, s, node, textOk))
  {
    if q.Some? && node != Null {
      LQ.EmptyIff(h, q.value);
    }
  }

  lemma RemoveHeadAgrees(h: Heap, q: Option<LQ.Queue>, bufsize: SizeT)
    requires q.Some? ==> LQ.Valid(h, q.value) && q.value.size != 1
    ensures RemoveHead(h, q, None, bufsize) == Ok(LQ.RemoveHead(h, q, None, bufsize))
  {
    if q.Some? && q.value.head != Null {
      LQ.EmptyIff(h, q.value);
      var ns := LQ.Nodes(h, q.value);
      LinkedNext(h, ns, 0);
    }
  }

  /**
   With a buffer long enough for the whole string and its NUL, `strncpy`
   pads with NUL and the caller reads back the removed string, as the
   documented copy gives; heap, header and return value agree too. Size 1
   is excluded for the reason `TailNotReset` shows.
   */
  lemma BufferedRemoveHeadAgrees(h: Heap, q: Option<LQ.Queue>, buf: seq<char>, bufsize: SizeT)
    requires q.Some? ==> LQ.Valid(h, q.value) && q.value.size != 1
    requires 0 < bufsize <= |buf|
    requires q.Some? && q.value.size > 0 ==> |LQ.Contents(h, q.value)[0]| < bufsize - 1
    ensures
      var r := RemoveHead(h, q, Some(buf), bufsize);
      var d := LQ.RemoveHead(h, q, Some(buf), bufsize);
      && r.Ok? && r.step.heap == d.heap && r.step.q == d.q && r.step.ret.ok == d.ret.ok
      && r.step.ret.sp.Some? && r.step.ret.sp.value[bufsize..] == buf[bufsize..]
      && ReadCString(r.step.ret.sp.value) == ReadCString(d.ret.sp.value)
  {
    if q.Some? && q.value.head != Null {
      LQ.EmptyIff(h, q.value);
      var ns := LQ.Nodes(h, q.value);
      LinkedNext(h, ns, 0);
      var v := h[q.value.head].value;
      ReadTerminated(StrNCpy(buf, v, bufsize - 1), v);
    }
  }

  // The divergences.

  /**
   Removing the only element leaves `tail` pointing at the freed node with
   `head` NULL and `size` 0, which is not a valid queue; the documented
   behaviour empties both ends.
   */
  lemma TailNotReset(h: Heap, q: LQ.Queue)
    requires LQ.Valid(h, q) && q.size == 1
    ensures
      var r := RemoveHead(h, Some(q), None, 0);
      && r.Ok? && r.step.ret.ok
      && r.step.q.value.head == Null && r.step.q.value.size == 0
      && r.step.q.value.tail == q.tail && q.tail !in r.step.heap
      && !LQ.Valid(r.step.heap, r.step.q.value)
    ensures
      var c := LQ.RemoveHead(h, Some(q), None, 0);
      c.q.value.tail == Null && LQ.Valid(c.heap, c.q.value)
  {
    LQ.EmptyIff(h, q);
    LinkedNext(h, LQ.Nodes(h, q), 0);
  }

  /**
   After that removal, `q_insert_tail` sees a non-NULL `tail` and writes
   through the freed node; with the documented removal the insertion
   yields the one-element queue.
   */
  lemma StaleTailWrittenThrough(h: Heap, q: LQ.Queue, s: Text, node: Ptr)
    requires LQ.Valid(h, q) && q.size == 1
    requires node != Null && node !in h
    ensures
      var r := RemoveHead(h, Some(q), None, 0);
      r.Ok? && InsertTail(r.step.heap, r.step.q, s, node, true).Undefined?
    ensures
      var c := LQ.RemoveHead(h, Some(q), None, 0);
      var d := LQ.InsertTail(c.heap, c.q, s, node, true);
      d.ret && LQ.Contents(d.heap, d.q.value) == [s]
  {
    TailNotReset(h, q);
  }

  /**
   After that removal, `q_insert_head` also sees a non-NULL `tail` and keeps
   it: the new node is `head` while `tail` still names the freed node, so
   the queue is not valid.
   */
  lemma StaleTailKeptByInsertHead(h: Heap, q: LQ.Queue, s: Text, node: Ptr)
    requires LQ.Valid(h, q) && q.size == 1
    requires node != Null && node !in h
    ensures
      var r := RemoveHead(h, Some(q), None, 0);
      && r.Ok? && node !in r.step.heap
      && var i := InsertHead(r.step.heap, r.step.q, s, node, true);
         && i.Ok? && i.step.q.value.head == node
         && i.step.q.value.tail == q.tail && q.tail !in i.step.heap
         && !LQ.Valid(i.step.heap, i.step.q.value)
    ensures
      var c := LQ.RemoveHead(h, Some(q), None, 0);
      var d := LQ.InsertHead(c.heap, c.q, s, node, true);
      d.ret && d.q.value.tail == node && LQ.Contents(d.heap, d.q.value) == [s]
  {
    TailNotReset(h, q);
  }

  /**
   When the removed string has at least `bufsize - 1` characters, `strncpy`
   writes no NUL, so a buffer that held none reads as unterminated; the
   documented copy always reads back as the truncated string.
   */
  lemma CopyNotTerminated(h: Heap, q: LQ.Queue, buf: seq<char>, bufsize: SizeT)
    requires LQ.Valid(h, q) && q.size > 0
    requires 0 < bufsize <= |buf| && '\0' !in buf
    requires |LQ.Contents(h, q)[0]| >= bufsize - 1
    ensures
      var r := RemoveHead(h, Some(q), Some(buf), bufsize);
      r.Ok? && r.step.ret.ok && ReadCString(r.step.ret.sp.value).None?
    ensures
      var v := LQ.Contents(h, q)[0];
      var c := LQ.RemoveHead(h, Some(q), Some(buf), bufsize);
      ReadCString(c.ret.sp.value) == Some(v[..bufsize - 1])
  {
    LQ.EmptyIff(h, q);
    var v := h[q.head].value;
    var out := StrNCpy(buf, v, bufsize - 1);
    assert out == out[..bufsize - 1] + out[bufsize - 1..];
    assert out[..bufsize - 1] == v[..bufsize - 1];
    assert '\0' !in out;
  }

  /** The case of `remove_head(q, buf, 2)` on "hello": "h" was promised, an unterminated "hx" results. */
  lemma HelloInTwoChars()
    ensures
      var h := map[1 := Node("hello", Null)];
      var q := LQ.Queue(1, 1, 1);
      && RemoveHead(h, Some(q), Some("xx"), 2) == Ok(LQ.Step(map[], Some(LQ.Queue(Null, 1, 0)), LQ.Removal(true, Some("hx"))))
      && LQ.RemoveHead(h, Some(q), Some("xx"), 2).ret.sp == Some("h\0")
  {
    var h := map[1 := Node("hello", Null)];
    var q := LQ.Queue(1, 1, 1);
    assert LQ.Nodes(h, q) == [1];
    assert StrNCpy("xx", "hello", 1) == "hx";
    assert StrNCpy("xx", "hello", 1)[1 := '\0'] == "h\0";
  }

  /**
   With `bufsize` 0, `bufsize - 1` wraps round to the largest `size_t` and
   `strncpy` writes past any buffer; the documented copy writes nothing.
   */
  lemma ZeroBufsizeOverruns(h: Heap, q: LQ.Queue, buf: seq<char>)
    requires LQ.Valid(h, q) && q.size > 0
    requires |buf| < SizeLimit - 1
    ensures RemoveHead(h, Some(q), Some(buf), 0).Undefined?
    ensures LQ.RemoveHead(h, Some(q), Some(buf), 0).ret == LQ.Removal(true, Some(buf))
  {
    LQ.EmptyIff(h, q);
  }

  /** `q_size` on NULL dereferences it; the documentation promises 0. */
  lemma SizeOfNull(h: Heap)
    ensures Size(h, None).Undefined?
    ensures LQ.Size(None) == 0
  {
  }

  /** A failed string allocation is written through; the documented insertion fails cleanly. */
  lemma UncheckedTextAllocation(h: Heap, q: LQ.Queue, s: Text, node: Ptr)
    requires LQ.Valid(h, q) && node != Null && node !in h
    ensures InsertHead(h, Some(q), s, node, false).Undefined?
    ensures InsertTail(h, Some(q), s, node, false).Undefined?
    ensures LQ.InsertHead(h, Some(q), s, node, false) == LQ.Step(h, Some(q), false)
    ensures LQ.InsertTail(h, Some(q), s, node, false) == LQ.Step(h, Some(q), false)
  {
  }

  /** With a NULL queue the element is allocated and never freed; the documented insertion allocates nothing. */
  lemma NullQueueLeaksNode(h: Heap, s: Text, node: Ptr)
    requires HeapOk(h) && node != Null && node !in h
    ensures
      var r := InsertHead(h, None, s, node, true);
      r.Ok? && !r.step.ret && node in r.step.heap && r.step.heap != h
    ensures
      var r := InsertTail(h, None, s, node, true);
      r.Ok? && !r.step.ret && node in r.step.heap && r.step.heap != h
    ensures LQ.InsertHead(h, None, s, node, true).heap == h
    ensures LQ.InsertTail(h, None, s, node, true).heap == h
  {
  }
}
