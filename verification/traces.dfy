/**
 Sequences of puts and gets run against the engine and against a plain list
 used as a FIFO queue, plus the loops the queue's callers write.
 */
module Traces {
  import opened Outcomes
  import opened IndexText
  import opened DiskQueue

  datatype Op<T> = PutOp(item: T) | GetOp

  /** Run the operations in order on the engine; the answers of the gets, in order. */
  function Execute<T>(q: Queue<T>, ops: seq<Op<T>>): (Queue<T>, seq<Option<T>>)
    decreases |ops|
  {
    if |ops| == 0 then (q, [])
    else
      match ops[0]
      case PutOp(x) => Execute(Put(q, x), ops[1..])
      case GetOp =>
        var (q', answer) := Get(q);
        var (q'', answers) := Execute(q', ops[1..]);
        (q'', [answer] + answers)
  }

  /** The same operations on a plain list: append at the back, take from the front. */
  function Reference<T>(items: seq<T>, ops: seq<Op<T>>): (seq<T>, seq<Option<T>>)
    decreases |ops|
  {
    if |ops| == 0 then (items, [])
    else
      match ops[0]
      case PutOp(x) => Reference(items + [x], ops[1..])
      case GetOp =>
        var (items', answer) := if items == [] then (items, None) else (items[1..], Some(items[0]));
        var (items'', answers) := Reference(items', ops[1..]);
        (items'', [answer] + answers)
  }

  function Puts<T>(ops: seq<Op<T>>): nat {
    if |ops| == 0 then 0 else (if ops[0].PutOp? then 1 else 0) + Puts(ops[1..])
  }

  function Hits<T>(answers: seq<Option<T>>): nat {
    if |answers| == 0 then 0 else (if answers[0].Some? then 1 else 0) + Hits(answers[1..])
  }

  /**
   The engine behaves as the plain list does: same answers to every get, and
   its contents after the run are the list's, with the invariant kept throughout.
   */
  lemma {:induction false} ExecuteMatchesReference<T>(q: Queue<T>, ops: seq<Op<T>>)
    requires Inv(q)
    ensures Inv(Execute(q, ops).0)
    ensures Contents(Execute(q, ops).0) == Reference(Contents(q), ops).0
    ensures Execute(q, ops).1 == Reference(Contents(q), ops).1
    decreases |ops|
  {
    if |ops| > 0 {
      match ops[0]
      case PutOp(x) =>
        PutAppends(q, x);
        PutPreservesInv(q, x);
        ExecuteMatchesReference(Put(q, x), ops[1..]);
      case GetOp =>
        GetPreservesInv(q);
        GetNoneIffEmpty(q);
        if Contents(q) != [] {
          GetRemovesFront(q);
        }
        ExecuteMatchesReference(Get(q).0, ops[1..]);
    }
  }

  /** On the list, the length moves by the puts minus the gets that returned an item. */
  lemma {:induction false} ReferenceLength<T>(items: seq<T>, ops: seq<Op<T>>)
    ensures |Reference(items, ops).0| == |items| + Puts(ops) - Hits(Reference(items, ops).1)
    decreases |ops|
  {
    if |ops| > 0 {
      match ops[0]
      case PutOp(x) =>
        ReferenceLength(items + [x], ops[1..]);
      case GetOp =>
        var items' := if items == [] then items else items[1..];
        ReferenceLength(items', ops[1..]);
    }
  }

  /** `len` after any run equals the length before plus the items put minus the items got. */
  lemma LenCountsPutsMinusGets<T>(q: Queue<T>, ops: seq<Op<T>>)
    requires Inv(q)
    ensures Len(Execute(q, ops).0) == Len(q) + Puts(ops) - Hits(Execute(q, ops).1)
  {
    ExecuteMatchesReference(q, ops);
    ReferenceLength(Contents(q), ops);
  }

  /** Put every item in order. */
  method PutAll<T>(q: Queue<T>, xs: seq<T>) returns (r: Queue<T>)
    requires Inv(q)
    ensures Inv(r)
    ensures Contents(r) == Contents(q) + xs
    ensures Len(r) == Len(q) + |xs|
  {
    r := q;
    var i := 0;
    while i < |xs|
      invariant 0 <= i <= |xs|
      invariant Inv(r)
      invariant Contents(r) == Contents(q) + xs[..i]
      invariant Len(r) == Len(q) + i
    {
      PutAppends(r, xs[i]);
      PutAddsOne(r, xs[i]);
      PutPreservesInv(r, xs[i]);
      r := Put(r, xs[i]);
      assert xs[..i + 1] == xs[..i] + [xs[i]];
      i := i + 1;
    }
    assert xs[..|xs|] == xs;
  }

  /** One get, seen from the caller: either the queue was empty, or the answer was the front item. */
  lemma GetStep<T>(q: Queue<T>)
    requires Inv(q)
    ensures Inv(Get(q).0)
    ensures Get(q).1.None? ==> Contents(q) == []
    ensures Get(q).1.Some? ==> Contents(q) == [Get(q).1.value] + Contents(Get(q).0)
  {
    GetPreservesInv(q);
    GetNoneIffEmpty(q);
    if Contents(q) != [] {
      GetRemovesFront(q);
    }
  }

  /**
   Get until get reports None: the items come out as the contents were,
   and the drained queue has no chunk files left.
   */
  method DrainAll<T>(q: Queue<T>) returns (r: Queue<T>, items: seq<T>)
    requires Inv(q)
    ensures Inv(r)
    ensures items == Contents(q)
    ensures Contents(r) == [] && Len(r) == 0
    ensures r.disk == map[]
  {
    r := q;
    items := [];
    while true
      invariant Inv(r)
      invariant items + Contents(r) == Contents(q)
      decreases |Contents(r)|
    {
      var next := Get(r);
      GetStep(r);
      if next.1.None? {
        break;
      }
      items := items + [next.1.value];
      r := next.0;
    }
    DrainedLeavesOnlyIndex(r);
  }

  /**
   A fresh queue filled with `xs` and then drained returns `xs` in order and
   leaves only the index file, holding equal counters.
   */
  method FillThenDrain<T>(cacheSize: nat, xs: seq<T>) returns (r: Queue<T>, items: seq<T>)
    requires cacheSize >= 1
    ensures items == xs
    ensures r.disk == map[] && r.head == r.tail
    ensures ParseIndex(r.index) == Some((r.head, r.tail))
  {
    var q := Fresh(cacheSize);
    q := PutAll(q, xs);
    r, items := DrainAll(q);
    DrainedLeavesOnlyIndex(r);
  }
}
