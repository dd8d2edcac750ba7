/**
 The chunk files of a queue directory, abstracted as a map from chunk number
 to the items the file holds (the marshal encoding is not modelled).
 */
module ChunkStore {

  type Disk<T> = map<nat, seq<T>>

  /** The items of chunk `k`; a missing file contributes nothing. */
  function Chunk<T>(disk: Disk<T>, k: nat): seq<T> {
    if k in disk then disk[k] else []
  }

  /** The items of chunks lo, lo+1, ..., hi-1 in chunk order. */
  function Span<T>(disk: Disk<T>, lo: nat, hi: nat): seq<T>
    decreases hi - lo
  {
    if lo >= hi then [] else Chunk(disk, lo) + Span(disk, lo + 1, hi)
  }

  /** Writing a new chunk just past the range appends its items at the back. */
  lemma {:induction false} SpanAppend<T>(disk: Disk<T>, lo: nat, hi: nat, items: seq<T>)
    requires lo <= hi
    ensures Span(disk[hi := items], lo, hi + 1) == Span(disk, lo, hi) + items
    decreases hi - lo
  {
    if lo < hi {
      SpanAppend(disk, lo + 1, hi, items);
    }
  }

  /** Only the chunks inside the range matter. */
  lemma {:induction false} SpanFrame<T>(disk: Disk<T>, disk': Disk<T>, lo: nat, hi: nat)
    requires forall k :: lo <= k < hi ==> Chunk(disk, k) == Chunk(disk', k)
    ensures Span(disk, lo, hi) == Span(disk', lo, hi)
    decreases hi - lo
  {
    if lo < hi {
      SpanFrame(disk, disk', lo + 1, hi);
    }
  }

  /** A range of full chunks holds (hi - lo) * size items. */
  lemma {:induction false} SpanLength<T>(disk: Disk<T>, lo: nat, hi: nat, size: nat)
    requires lo <= hi
    requires forall k :: lo <= k < hi ==> |Chunk(disk, k)| == size
    ensures |Span(disk, lo, hi)| == (hi - lo) * size
    decreases hi - lo
  {
    if lo < hi {
      SpanLength(disk, lo + 1, hi, size);
    }
  }

  /**
   `SpanLength` as an implication with no precondition: a function body
   (`Len`) can call it unconditionally and let its own postcondition's
   antecedent supply the fullness premise.
   */
  lemma SpanLengthWhenFull<T>(disk: Disk<T>, lo: nat, hi: nat, size: nat)
    ensures lo <= hi && (forall k :: lo <= k < hi ==> |Chunk(disk, k)| == size) ==>
      |Span(disk, lo, hi)| == (hi - lo) * size
  {
    if lo <= hi && (forall k :: lo <= k < hi ==> |Chunk(disk, k)| == size) {
      SpanLength(disk, lo, hi, size);
    }
  }
}
