/**
 Sequences of insertions and removals run against the linked queue, and
 the abstract queue of strings they are meant to implement. The size the
 header tracks stays equal to the successful insertions minus the
 successful removals, and the list stays valid throughout.
 */
module Trace {
  import opened Memory
  import opened LinkedQueue

  /** One call by the driver, with the allocation outcome it meets. */
  datatype Op =
    | PushHead(s: Text, node: Ptr, textOk: bool)
    | PushTail(s: Text, node: Ptr, textOk: bool)
    | PopHead

  /** Whether a push finds both allocations succeeding. */
  predicate Allocates(op: Op) {
    !op.PopHead? && op.node != Null && op.textOk
  }

  /** The abstract queue: what one call does to the sequence of strings. */
  function Effect(c: seq<Text>, op: Op): seq<Text> {
    match op
    case PushHead(s, _, _) => if Allocates(op) then [s] + c else c
    case PushTail(s, _, _) => if Allocates(op) then c + [s] else c
    case PopHead => if |c| == 0 then c else c[1..]
  }

  function Apply(c: seq<Text>, ops: seq<Op>): seq<Text>
    decreases |ops|
  {
    if |ops| == 0 then c else Apply(Effect(c, ops[0]), ops[1..])
  }

  /** The number of pushes that succeed. */
  function Pushes(ops: seq<Op>): nat
    decreases |ops|
  {
    if |ops| == 0 then 0 else (if Allocates(ops[0]) then 1 else 0) + Pushes(ops[1..])
  }

  /** The number of removals that find the queue non-empty. */
  function Pops(c: seq<Text>, ops: seq<Op>): nat
    decreases |ops|
  {
    if |ops| == 0 then 0
    else (if ops[0].PopHead? && |c| > 0 then 1 else 0) + Pops(Effect(c, ops[0]), ops[1..])
  }

  /** The abstract queue grows by one per successful push and shrinks by one per successful pop. */
  lemma {:induction false} ApplyLength(c: seq<Text>, ops: seq<Op>)
    ensures |Apply(c, ops)| == |c| + Pushes(ops) - Pops(c, ops)
    decreases |ops|
  {
    if |ops| > 0 {
      ApplyLength(Effect(c, ops[0]), ops[1..]);
    }
  }

  /** One call against the linked queue, with no buffer for removals. */
  function Call(h: Heap, q: Queue, op: Op): (r: Step<bool>)
    requires Valid(h, q)
    requires !op.PopHead? ==> op.node !in h
    ensures r.q.Some? && Valid(r.heap, r.q.value)
    ensures Contents(r.heap, r.q.value) == Effect(Contents(h, q), op)
    ensures r.heap.Keys <= h.Keys + (if op.PopHead? then {} else {op.node})
  {
    match op
    case PushHead(s, node, ok) => InsertHead(h, Some(q), s, node, ok)
    case PushTail(s, node, ok) => InsertTail(h, Some(q), s, node, ok)
    case PopHead =>
      var r := RemoveHead(h, Some(q), None, 0);
      Step(r.heap, r.q, r.ret.ok)
  }

  /**
   Every push meets `malloc`'s guarantee: the address it gets is not live
   at the moment of the call. An address freed by an earlier removal may
   come back.
   */
  predicate Admissible(h: Heap, q: Queue, ops: seq<Op>)
    requires Valid(h, q)
    decreases |ops|
  {
    || |ops| == 0
    || (&& (!ops[0].PopHead? ==> ops[0].node !in h)
        && var st := Call(h, q, ops[0]);
           Admissible(st.heap, st.q.value, ops[1..]))
  }

  /**
   A whole sequence of calls: the queue stays valid, holds what the
   abstract queue holds, and its counter is the net number of successes.
   */
  function Run(h: Heap, q: Queue, ops: seq<Op>): (r: (Heap, Queue))
    requires Valid(h, q) && Admissible(h, q, ops)
    ensures Valid(r.0, r.1)
    ensures Contents(r.0, r.1) == Apply(Contents(h, q), ops)
    ensures r.1.size == q.size + Pushes(ops) - Pops(Contents(h, q), ops)
    decreases |ops|
  {
    if |ops| == 0 then (h, q)
    else
      var st := Call(h, q, ops[0]);
      var rest := ops[1..];
      var r := Run(st.heap, st.q.value, rest);
      ApplyLength(Contents(h, q), ops);
      r
  }

  /** Insert, remove, insert again with `malloc` handing back the freed address. */
  lemma ReuseFreedAddress()
    ensures
      var ops := [PushTail("a", 1, true), PopHead, PushTail("b", 1, true)];
      && Admissible(map[], Queue(Null, Null, 0), ops)
      && var r := Run(map[], Queue(Null, Null, 0), ops);
         Contents(r.0, r.1) == ["b"] && r.1.size == 1
  {
    var q0 := Queue(Null, Null, 0);
    var ops := [PushTail("a", 1, true), PopHead, PushTail("b", 1, true)];
    assert Valid(map[], q0);
    var s1 := Call(map[], q0, ops[0]);
    var s2 := Call(s1.heap, s1.q.value, ops[1]);
    assert 1 !in s2.heap;
    assert ops[1..][1..] == [ops[2]];
    assert Apply([], ops) == ["b"];
  }
}
