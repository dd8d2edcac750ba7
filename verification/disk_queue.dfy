/**
 The queue engine of class DiskQueue: two in-memory buffers, chunk files
 numbered head..tail-1, and the index file holding "head,tail".
 Every operation is a pure function from the state before to the state after.
 */
module DiskQueue {
  import opened Outcomes
  import opened IndexText
  import opened ChunkStore

  /**
   One queue: `cacheSize` items per chunk, the chunk counters, the get buffer
   (oldest items, handed out first), the put buffer (newest items), the chunk
   files and the text of the index file.
   */
  datatype Queue<T> = Queue(
    cacheSize: nat,
    head: nat,
    tail: nat,
    getBuf: seq<T>,
    putBuf: seq<T>,
    disk: Disk<T>,
    index: string)

  /** The logical contents, oldest first: get buffer, then live chunks in order, then put buffer. */
  function Contents<T>(q: Queue<T>): seq<T> {
    q.getBuf + Span(q.disk, q.head, q.tail) + q.putBuf
  }

  /**
   The state every operation keeps from a fresh queue on: exactly the chunks
   head..tail-1 are on disk, each full, both buffers fit in one chunk, and the
   index text is the current counters.
   */
  ghost predicate Inv<T>(q: Queue<T>) {
    && q.cacheSize >= 1
    && q.head <= q.tail
    && (forall k :: k in q.disk <==> q.head <= k < q.tail)
    && (forall k :: k in q.disk ==> |q.disk[k]| == q.cacheSize)
    && |q.getBuf| <= q.cacheSize
    && |q.putBuf| <= q.cacheSize
    && q.index == FormatIndex(q.head, q.tail)
  }

  /**
   `__len__`: full chunks counted by the counters, buffers by their sizes.
   Under the invariant this O(1) formula counts the logical contents exactly.
   */
  function Len<T>(q: Queue<T>): (n: int)
    ensures Inv(q) ==> n == |Contents(q)|
  {
    SpanLengthWhenFull(q.disk, q.head, q.tail, q.cacheSize);
    (q.tail - q.head) * q.cacheSize + |q.getBuf| + |q.putBuf|
  }

  /** `_sync_index_pointers`: rewrite the index file in place with the current counters. */
  function PersistIndex<T>(q: Queue<T>): (r: Queue<T>)
    ensures r.(index := q.index) == q
    ensures |FormatIndex(q.head, q.tail)| <= |r.index|
    ensures r.index[..|FormatIndex(q.head, q.tail)|] == FormatIndex(q.head, q.tail)
  {
    q.(index := Overwrite(q.index, FormatIndex(q.head, q.tail)))
  }

  /** `sync_memory_cache_to_fs`: the put buffer becomes chunk file `tail`, replacing any earlier one. */
  function WriteChunk<T>(q: Queue<T>): (r: Queue<T>)
    ensures r.(disk := q.disk) == q
    ensures r.disk.Keys == q.disk.Keys + {q.tail} && r.disk[q.tail] == q.putBuf
    ensures forall k :: k in q.disk && k != q.tail ==> r.disk[k] == q.disk[k]
  {
    q.(disk := q.disk[q.tail := q.putBuf])
  }

  /**
   `_sync_from_fs_to_memory_buffer`: when chunk file `head` exists its items
   replace the get buffer and the file is deleted; otherwise nothing happens.
   */
  function LoadHead<T>(q: Queue<T>): (r: Queue<T>)
    ensures q.head in q.disk ==> r.getBuf == q.disk[q.head]
    ensures q.head !in q.disk ==> r.getBuf == q.getBuf
    ensures r.disk.Keys == q.disk.Keys - {q.head}
    ensures forall k :: k in r.disk ==> r.disk[k] == q.disk[k]
    ensures r.(getBuf := q.getBuf, disk := q.disk) == q
  {
    if q.head in q.disk then q.(getBuf := q.disk[q.head], disk := q.disk - {q.head}) else q
  }

  /**
   `_init_queue` on a directory that does not exist yet: counters 0,0, index
   "0,0" written, then the load of chunk 0, which finds nothing.
   */
  function Fresh<T>(cacheSize: nat): (q: Queue<T>)
    ensures q.cacheSize == cacheSize && q.head == 0 && q.tail == 0
    ensures q.getBuf == [] && q.putBuf == [] && q.disk == map[]
    ensures q.index == "0,0"
    ensures Contents(q) == [] && Len(q) == 0
    ensures cacheSize >= 1 ==> Inv(q)
  {
    LoadHead(Queue(cacheSize, 0, 0, [], [], map[], FormatIndex(0, 0)))
  }

  /**
   `_put_unsafe`: a put buffer that already holds `cacheSize` items is first
   flushed as chunk `tail`, `tail` advances and the index is persisted; then
   the item is appended to the put buffer.
   */
  function Put<T>(q: Queue<T>, x: T): (r: Queue<T>)
    ensures r.cacheSize == q.cacheSize && r.head == q.head && r.getBuf == q.getBuf
    ensures |r.putBuf| >= 1 && r.putBuf[|r.putBuf| - 1] == x
  {
    var q' :=
      if |q.putBuf| >= q.cacheSize then
        PersistIndex(WriteChunk(q).(putBuf := [], tail := q.tail + 1))
      else q;
    q'.(putBuf := q'.putBuf + [x])
  }

  /** Hand out the front of the get buffer, or None when it is empty. */
  function Pop<T>(q: Queue<T>): (r: (Queue<T>, Option<T>))
    ensures q.getBuf == [] ==> r == (q, None)
    ensures q.getBuf != [] ==> r.1 == Some(q.getBuf[0]) && [q.getBuf[0]] + r.0.getBuf == q.getBuf
    ensures r.0.(getBuf := q.getBuf) == q
  {
    if |q.getBuf| == 0 then (q, None) else (q.(getBuf := q.getBuf[1..]), Some(q.getBuf[0]))
  }

  /**
   What an empty get buffer is refilled with: with no chunk on disk the put
   buffer moves over wholesale; otherwise chunk `head` is loaded and deleted,
   `head` advances and the index is persisted.
   */
  function Refill<T>(q: Queue<T>): (r: Queue<T>)
    ensures r.cacheSize == q.cacheSize && r.tail == q.tail
    ensures q.head == q.tail ==>
      r.getBuf == q.putBuf && r.putBuf == [] && r.head == q.head && r.disk == q.disk && r.index == q.index
    ensures q.head != q.tail ==>
      r.head == q.head + 1 && r.putBuf == q.putBuf && r.disk == q.disk - {q.head}
    ensures q.head != q.tail && q.head in q.disk ==> r.getBuf == q.disk[q.head]
    ensures q.head != q.tail && q.head !in q.disk ==> r.getBuf == q.getBuf
    ensures q.head != q.tail && Inv(q) ==> r.index == FormatIndex(q.head + 1, q.tail)
  {
    if q.head == q.tail then q.(getBuf := q.putBuf, putBuf := [])
    else
      IndexOverwriteExact(q.head, q.tail, q.head + 1, q.tail);
      PersistIndex(LoadHead(q).(head := q.head + 1))
  }

  /** `_get_unsafe`: the oldest item, refilling the get buffer first when it is empty. */
  function Get<T>(q: Queue<T>): (r: (Queue<T>, Option<T>))
    ensures r.0.cacheSize == q.cacheSize && r.0.tail == q.tail
    ensures r.0.head == q.head || r.0.head == q.head + 1
    ensures q.getBuf != [] ==> r.1 == Some(q.getBuf[0])
  {
    if |q.getBuf| > 0 then Pop(q) else Pop(Refill(q))
  }

  // ---------------------------------------------------------------------------
  // Index and length

  /** The index file always reads back as the current counters. */
  lemma IndexMatchesCounters<T>(q: Queue<T>)
    requires Inv(q)
    ensures ParseIndex(q.index) == Some((q.head, q.tail))
  {
    IndexRoundTrip(q.head, q.tail);
  }

  /** The queue is empty exactly when both buffers are empty and no chunk is live. */
  lemma EmptyIff<T>(q: Queue<T>)
    requires Inv(q)
    ensures Contents(q) == [] <==> q.getBuf == [] && q.putBuf == [] && q.head == q.tail
  {
    if q.head < q.tail {
      assert |Chunk(q.disk, q.head)| == q.cacheSize;
    }
  }

  /** A drained queue leaves no chunk files behind, only the index. */
  lemma DrainedLeavesOnlyIndex<T>(q: Queue<T>)
    requires Inv(q) && Contents(q) == []
    ensures q.disk == map[]
    ensures ParseIndex(q.index) == Some((q.head, q.head))
  {
    EmptyIff(q);
    IndexMatchesCounters(q);
  }

  // ---------------------------------------------------------------------------
  // Put

  /**
   A put on a full put buffer writes it as chunk `tail`, advances `tail` by
   exactly one, persists the new counters and leaves the put buffer as [x];
   `head` and the get buffer stay as they were.
   */
  lemma PutFlushesFullBuffer<T>(q: Queue<T>, x: T)
    requires |q.putBuf| >= q.cacheSize
    ensures Put(q, x).disk == q.disk[q.tail := q.putBuf]
    ensures Put(q, x).tail == q.tail + 1
    ensures Put(q, x).putBuf == [x]
    ensures Put(q, x).head == q.head && Put(q, x).getBuf == q.getBuf
    ensures Inv(q) ==> ParseIndex(Put(q, x).index) == Some((q.head, q.tail + 1))
  {
    if Inv(q) {
      IndexOverwriteExact(q.head, q.tail, q.head, q.tail + 1);
      IndexRoundTrip(q.head, q.tail + 1);
    }
  }

  /** Below the threshold a put only appends to the put buffer: no disk or index write. */
  lemma PutBelowThreshold<T>(q: Queue<T>, x: T)
    requires |q.putBuf| < q.cacheSize
    ensures Put(q, x) == q.(putBuf := q.putBuf + [x])
  {
  }

  /** Put keeps the invariant, and afterwards the put buffer holds 1..cacheSize items. */
  lemma PutPreservesInv<T>(q: Queue<T>, x: T)
    requires Inv(q)
    ensures Inv(Put(q, x))
    ensures 1 <= |Put(q, x).putBuf| <= q.cacheSize
  {
    if |q.putBuf| >= q.cacheSize {
      IndexOverwriteExact(q.head, q.tail, q.head, q.tail + 1);
    }
  }

  /** FIFO, producer side: a put appends the item at the back of the contents. */
  lemma PutAppends<T>(q: Queue<T>, x: T)
    requires q.head <= q.tail
    ensures Contents(Put(q, x)) == Contents(q) + [x]
  {
    if |q.putBuf| >= q.cacheSize {
      PutFlushesFullBuffer(q, x);
      SpanAppend(q.disk, q.head, q.tail, q.putBuf);
    } else {
      PutBelowThreshold(q, x);
    }
  }

  /** A put adds exactly one to `len`. */
  lemma PutAddsOne<T>(q: Queue<T>, x: T)
    requires Inv(q)
    ensures Len(Put(q, x)) == Len(q) + 1
  {
    PutAppends(q, x);
    PutPreservesInv(q, x);
  }

  /**
   A direct call of `sync_memory_cache_to_fs` (a checkpoint, not a flush)
   leaves the logical contents alone: the file lands at `tail`, just past the
   live range, while the items stay in the put buffer too.
   */
  lemma WriteChunkInvisible<T>(q: Queue<T>)
    requires q.head <= q.tail
    ensures Contents(WriteChunk(q)) == Contents(q)
  {
    SpanFrame(q.disk, WriteChunk(q).disk, q.head, q.tail);
  }

  // ---------------------------------------------------------------------------
  // Get

  /** Refilling an empty get buffer keeps the contents and the invariant and makes it non-empty if anything is queued. */
  lemma RefillKeepsContents<T>(q: Queue<T>)
    requires Inv(q) && q.getBuf == []
    ensures Inv(Refill(q))
    ensures Contents(Refill(q)) == Contents(q)
    ensures Contents(q) != [] ==> Refill(q).getBuf != []
  {
    var r := Refill(q);
    if q.head < q.tail {
      var l := LoadHead(q);
      SpanFrame(l.disk, q.disk, q.head + 1, q.tail);
      assert Span(q.disk, q.head, q.tail) == q.disk[q.head] + Span(q.disk, q.head + 1, q.tail);
      IndexOverwriteExact(q.head, q.tail, q.head + 1, q.tail);
    }
  }

  /** Popping a non-empty get buffer hands out the front of the contents and drops it. */
  lemma PopFront<T>(q: Queue<T>)
    requires q.getBuf != []
    ensures Pop(q).1 == Some(Contents(q)[0])
    ensures Contents(Pop(q).0) == Contents(q)[1..]
  {
    assert Contents(q) == [q.getBuf[0]] + Contents(Pop(q).0);
  }

  /** Get keeps the invariant. */
  lemma GetPreservesInv<T>(q: Queue<T>)
    requires Inv(q)
    ensures Inv(Get(q).0)
  {
    if q.getBuf == [] {
      RefillKeepsContents(q);
    }
  }

  /**
   FIFO, consumer side: on a non-empty queue get returns the oldest item,
   leaves the rest in order and takes one off the length.
   */
  lemma GetRemovesFront<T>(q: Queue<T>)
    requires Inv(q) && Contents(q) != []
    ensures Get(q).1 == Some(Contents(q)[0])
    ensures Contents(Get(q).0) == Contents(q)[1..]
    ensures Len(Get(q).0) == Len(q) - 1
  {
    if q.getBuf == [] {
      RefillKeepsContents(q);
      PopFront(Refill(q));
    } else {
      PopFront(q);
    }
    GetPreservesInv(q);
  }

  /** On an empty queue get returns None and changes nothing at all. */
  lemma GetOnEmpty<T>(q: Queue<T>)
    requires q.getBuf == [] && q.putBuf == [] && q.head == q.tail
    ensures Get(q) == (q, None)
  {
  }

  /** Under the invariant get returns None exactly when the queue is empty. */
  lemma GetNoneIffEmpty<T>(q: Queue<T>)
    requires Inv(q)
    ensures Get(q).1 == None <==> Contents(q) == []
    ensures Get(q).1 == None ==> Get(q).0 == q
  {
    if Contents(q) != [] {
      GetRemovesFront(q);
    } else {
      EmptyIff(q);
    }
  }

  /**
   Get touches disk and index only when the get buffer is empty and a chunk is
   live; then it deletes chunk `head`, advances `head` by one and persists it.
   */
  lemma GetDiskAccess<T>(q: Queue<T>)
    ensures !(q.getBuf == [] && q.head != q.tail) ==>
      Get(q).0.disk == q.disk && Get(q).0.head == q.head && Get(q).0.index == q.index
    ensures q.getBuf == [] && q.head != q.tail ==>
      Get(q).0.disk == q.disk - {q.head} && Get(q).0.head == q.head + 1
    ensures Inv(q) && q.getBuf == [] && q.head != q.tail ==>
      ParseIndex(Get(q).0.index) == Some((q.head + 1, q.tail))
  {
    if q.getBuf == [] {
      assert Get(q) == Pop(Refill(q));
      if Inv(q) && q.head != q.tail {
        IndexRoundTrip(q.head + 1, q.tail);
      }
    }
  }
}
