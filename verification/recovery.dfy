/**
 Opening a queue over a directory that already exists: read the index,
 then hydrate the get buffer from chunk `head`. The code as written does not
 advance `head` after that load; `Open` is the corrected form, which makes
 the same load and, when the loaded chunk was live, advances `head` and
 rewrites the index as a runtime get does.
 */
module Recovery {
  import opened Outcomes
  import opened IndexText
  import opened ChunkStore
  import opened DiskQueue

  /** A queue directory on disk: its chunk files and, when it exists, the index file's text. */
  datatype Directory<T> = Directory(chunks: Disk<T>, index: Option<string>)

  /** Opening fails when the index file is absent or its text does not parse as two counters. */
  datatype OpenError = IndexMissing | IndexUnparsable

  /** What a restart keeps of a running queue: the directory; both buffers are lost. */
  function Persisted<T>(q: Queue<T>): Directory<T> {
    Directory(q.disk, Some(q.index))
  }

  /** Read the counters from an existing directory; buffers start empty. */
  function ReadIndex<T>(cacheSize: nat, d: Directory<T>): (r: Result<Queue<T>, OpenError>)
    ensures d.index.None? ==> r == Err(IndexMissing)
    ensures d.index.Some? && ParseIndex(d.index.value).None? ==> r == Err(IndexUnparsable)
    ensures r.Ok? ==> d.index.Some? && ParseIndex(d.index.value) == Some((r.value.head, r.value.tail))
    ensures r.Ok? ==> r.value.getBuf == [] && r.value.putBuf == [] && r.value.disk == d.chunks
    ensures r.Ok? <==> d.index.Some? && ParseIndex(d.index.value).Some?
    ensures r.Ok? ==> r.value.cacheSize == cacheSize && r.value.index == d.index.value
  {
    match d.index
    case None => Err(IndexMissing)
    case Some(text) =>
      match ParseIndex(text)
      case None => Err(IndexUnparsable)
      case Some((h, t)) => Ok(Queue(cacheSize, h, t, [], [], d.chunks, text))
  }

  /** `_init_queue` as written: a missing directory gives a fresh queue; otherwise chunk `head` is loaded and deleted, `head` stays. */
  function OpenAsWritten<T>(cacheSize: nat, dir: Option<Directory<T>>): (r: Result<Queue<T>, OpenError>)
    ensures dir.None? ==> r == Ok(Fresh(cacheSize))
    ensures dir.Some? ==> (r.Ok? <==> ReadIndex(cacheSize, dir.value).Ok?)
    ensures dir.Some? && r.Err? ==> r.error == ReadIndex(cacheSize, dir.value).error
    ensures dir.Some? && r.Ok? ==>
      var q := ReadIndex(cacheSize, dir.value).value;
      && r.value.cacheSize == cacheSize && r.value.head == q.head && r.value.tail == q.tail
      && r.value.index == q.index && r.value.putBuf == [] && r.value.disk == q.disk - {q.head}
      && r.value.getBuf == Chunk(q.disk, q.head)
  {
    match dir
    case None => Ok(Fresh(cacheSize))
    case Some(d) =>
      match ReadIndex(cacheSize, d)
      case Err(e) => Err(e)
      case Ok(q) => Ok(LoadHead(q))
  }

  /**
   `_init_queue` corrected: chunk `head` is loaded and deleted exactly as
   written, and when it was a live chunk `head` moves past it and the index
   is rewritten. When `head == tail` the loaded file (if any) is the one a
   direct write of the put buffer left at `tail`, and it stays in the get
   buffer with the counters untouched.
   */
  function Open<T>(cacheSize: nat, dir: Option<Directory<T>>): (r: Result<Queue<T>, OpenError>)
    ensures dir.None? ==> r == Ok(Fresh(cacheSize))
    ensures dir.Some? ==> (r.Ok? <==> ReadIndex(cacheSize, dir.value).Ok?)
    ensures dir.Some? && r.Err? ==> r.error == ReadIndex(cacheSize, dir.value).error
    ensures dir.Some? && r.Ok? ==>
      var q := ReadIndex(cacheSize, dir.value).value;
      && r.value.cacheSize == cacheSize && r.value.tail == q.tail && r.value.putBuf == []
      && r.value.getBuf == Chunk(q.disk, q.head) && r.value.disk == q.disk - {q.head}
      && (q.head == q.tail ==> r.value.head == q.head && r.value.index == q.index)
      && (q.head != q.tail ==>
            && r.value.head == q.head + 1
            && (q.index == FormatIndex(q.head, q.tail) ==> r.value.index == FormatIndex(q.head + 1, q.tail)))
  {
    match dir
    case None => Ok(Fresh(cacheSize))
    case Some(d) =>
      match ReadIndex(cacheSize, d)
      case Err(e) => Err(e)
      case Ok(q) =>
        var l := LoadHead(q);
        if q.head != q.tail then
          IndexOverwriteExact(q.head, q.tail, q.head + 1, q.tail);
          Ok(PersistIndex(l.(head := q.head + 1)))
        else
          Ok(l)
  }

  /**
   As written, reopening a queue with a live chunk keeps every durable item
   but leaves `head` on the chunk it already deleted: the length formula then
   overcounts by one chunk and the invariant is lost.
   */
  lemma OpenAsWrittenOvercounts<T>(q: Queue<T>)
    requires Inv(q) && q.head < q.tail
    ensures OpenAsWritten(q.cacheSize, Some(Persisted(q))).Ok?
    ensures var r := OpenAsWritten(q.cacheSize, Some(Persisted(q))).value;
      && r.head == q.head
      && Contents(r) == Span(q.disk, q.head, q.tail)
      && Len(r) == |Contents(r)| + q.cacheSize
      && !Inv(r)
  {
    IndexMatchesCounters(q);
    var base := Queue(q.cacheSize, q.head, q.tail, [], [], q.disk, q.index);
    assert ReadIndex(q.cacheSize, Persisted(q)) == Ok(base);
    LoadWithoutAdvance(base);
  }

  /** Loading chunk `head` into an empty get buffer without advancing `head`: nothing is lost, but one chunk is counted twice. */
  lemma LoadWithoutAdvance<T>(b: Queue<T>)
    requires Inv(b) && b.getBuf == [] && b.head < b.tail
    ensures LoadHead(b).head == b.head
    ensures Contents(LoadHead(b)) == Contents(b)
    ensures Len(LoadHead(b)) == |Contents(b)| + b.cacheSize
    ensures !Inv(LoadHead(b))
  {
    var (h, t, c) := (b.head, b.tail, b.cacheSize);
    var r := LoadHead(b);
    SpanFrame(r.disk, b.disk, h + 1, t);
    assert Span(r.disk, h, t) == Span(b.disk, h + 1, t);
    assert Span(b.disk, h, t) == b.disk[h] + Span(b.disk, h + 1, t);
    SpanLength(b.disk, h + 1, t, c);
    var live: nat := t - (h + 1);
    assert (live + 1) * c == live * c + c;
    assert Len(r) == (live + 1) * c + |r.putBuf| + c;
    assert |Contents(r)| == c + live * c + |r.putBuf|;
    assert h !in r.disk;
  }

  /** With one item per chunk, putting 7 then 8 flushes [7] as chunk 0 and persists "0,1". */
  lemma PutSevenEight()
    ensures Put(Put(Fresh<int>(1), 7), 8) == Queue(1, 0, 1, [], [8], map[0 := [7]], FormatIndex(0, 1))
  {
    var q0 := Fresh<int>(1);
    assert q0 == Queue(1, 0, 0, [], [], map[], FormatIndex(0, 0));
    var q1 := Queue(1, 0, 0, [], [7], map[], FormatIndex(0, 0));
    assert Put(q0, 7) == q1;
    IndexOverwriteExact(0, 0, 0, 1);
  }

  /** Putting 9 next flushes [8] as chunk 1 and persists "0,2". */
  lemma PutNine()
    ensures Put(Queue(1, 0, 1, [], [8], map[0 := [7]], FormatIndex(0, 1)), 9)
      == Queue(1, 0, 2, [], [9], map[0 := [7], 1 := [8]], FormatIndex(0, 2))
  {
    IndexOverwriteExact(0, 1, 0, 2);
  }

  /** With one item per chunk, putting 7, 8 and 9 flushes [7] and [8] as chunks 0 and 1 and persists "0,2". */
  lemma PutSevenEightNine()
    ensures Persisted(Put(Put(Put(Fresh<int>(1), 7), 8), 9))
      == Directory(map[0 := [7], 1 := [8]], Some(FormatIndex(0, 2)))
  {
    PutSevenEight();
    PutNine();
  }

  /** Reopening that directory as written puts [7] in the get buffer, deletes chunk 0 and keeps `head` at 0. */
  lemma ReopenSevenEightNine()
    ensures OpenAsWritten(1, Some(Directory(map[0 := [7], 1 := [8]], Some(FormatIndex(0, 2)))))
      == Ok(Queue(1, 0, 2, [7], [], map[1 := [8]], FormatIndex(0, 2)))
  {
    var d := Directory(map[0 := [7], 1 := [8]], Some(FormatIndex(0, 2)));
    IndexRoundTrip(0, 2);
    var base := Queue(1, 0, 2, [], [], map[0 := [7], 1 := [8]], FormatIndex(0, 2));
    assert ReadIndex(1, d) == Ok(base);
    assert map[0 := [7], 1 := [8]] - {0} == map[1 := [8]];
    assert LoadHead(base) == Queue(1, 0, 2, [7], [], map[1 := [8]], FormatIndex(0, 2));
  }

  /** From that state the first get gives 7, after which `len` reports 2 although only chunk 1 = [8] is left. */
  lemma FirstGetAfterReopen()
    ensures var r := Queue(1, 0, 2, [7], [], map[1 := [8]], FormatIndex(0, 2));
      && Get(r) == (r.(getBuf := []), Some(7))
      && Contents(r.(getBuf := [])) == [8]
      && Len(r.(getBuf := [])) == 2
  {
    var r := Queue(1, 0, 2, [7], [], map[1 := [8]], FormatIndex(0, 2));
    assert r.getBuf[1..] == [];
    var r1 := r.(getBuf := []);
    assert Span(r1.disk, 1, 2) == [8] + Span(r1.disk, 2, 2);
    assert Contents(r1) == Span(r1.disk, 1, 2);
  }

  /** The second get finds chunk 0 gone, answers None and only advances `head`; the third get returns 8. */
  lemma LaterGetsAfterReopen()
    ensures var r1 := Queue(1, 0, 2, [], [], map[1 := [8]], FormatIndex(0, 2));
      var r2 := Queue(1, 1, 2, [], [], map[1 := [8]], FormatIndex(1, 2));
      && Get(r1) == (r2, None)
      && r2.disk[1] == [8]
      && Get(r2).1 == Some(8)
  {
    var r1 := Queue(1, 0, 2, [], [], map[1 := [8]], FormatIndex(0, 2));
    var r2 := Queue(1, 1, 2, [], [], map[1 := [8]], FormatIndex(1, 2));
    IndexOverwriteExact(0, 2, 1, 2);
    assert LoadHead(r1) == r1;
    assert Refill(r1) == r2;
    IndexOverwriteExact(1, 2, 2, 2);
    assert map[1 := [8]] - {1} == map[];
    var r3 := Queue(1, 2, 2, [8], [], map[], FormatIndex(2, 2));
    assert Refill(r2) == r3;
  }

  /**
   The symptom as written, with one item per chunk: after putting 7, 8 and 9
   the directory holds chunks 0 = [7] and 1 = [8] and index "0,2". Reopened,
   the first get gives 7, the second answers None although chunk 1 = [8] is
   still on disk, and the third gives 8.
   */
  lemma OpenAsWrittenGetsNoneTooEarly()
    ensures var d := Directory(map[0 := [7], 1 := [8]], Some(FormatIndex(0, 2)));
      var r := Queue(1, 0, 2, [7], [], map[1 := [8]], FormatIndex(0, 2));
      && Persisted(Put(Put(Put(Fresh<int>(1), 7), 8), 9)) == d
      && OpenAsWritten(1, Some(d)) == Ok(r)
      && Get(r).1 == Some(7)
      && Contents(Get(r).0) == [8]
      && Get(Get(r).0).1 == None
      && Get(Get(r).0).0.disk[1] == [8]
      && Get(Get(Get(r).0).0).1 == Some(8)
  {
    PutSevenEightNine();
    ReopenSevenEightNine();
    FirstGetAfterReopen();
    LaterGetsAfterReopen();
  }

  /** Corrected, on the same directory: the reopened queue has `head` at 1, and two gets give 7 and then 8. */
  lemma OpenGetsSevenThenEight()
    ensures var d := Directory(map[0 := [7], 1 := [8]], Some(FormatIndex(0, 2)));
      var r := Queue(1, 1, 2, [7], [], map[1 := [8]], FormatIndex(1, 2));
      && Open(1, Some(d)) == Ok(r)
      && Get(r).1 == Some(7)
      && Get(Get(r).0).1 == Some(8)
  {
    var d := Directory(map[0 := [7], 1 := [8]], Some(FormatIndex(0, 2)));
    IndexRoundTrip(0, 2);
    var base := Queue(1, 0, 2, [], [], map[0 := [7], 1 := [8]], FormatIndex(0, 2));
    assert ReadIndex(1, d) == Ok(base);
    assert map[0 := [7], 1 := [8]] - {0} == map[1 := [8]];
    IndexOverwriteExact(0, 2, 1, 2);
    var r := Queue(1, 1, 2, [7], [], map[1 := [8]], FormatIndex(1, 2));
    assert Open(1, Some(d)) == Ok(r);
    assert r.getBuf[1..] == [];
    assert Get(r) == (r.(getBuf := []), Some(7));
    LaterGetsAfterReopen();
  }

  /**
   Corrected: reopening the directory a running queue left behind yields a
   queue that satisfies the invariant and holds exactly the durable items,
   the live chunks in order; buffered items are the ones a restart loses.
   */
  lemma OpenRestoresDurable<T>(q: Queue<T>)
    requires Inv(q)
    ensures Open(q.cacheSize, Some(Persisted(q))).Ok?
    ensures var r := Open(q.cacheSize, Some(Persisted(q))).value;
      && Inv(r)
      && Contents(r) == Span(q.disk, q.head, q.tail)
      && Len(r) == |Contents(r)|
  {
    IndexMatchesCounters(q);
    var base := ReadIndex(q.cacheSize, Persisted(q)).value;
    assert Inv(base);
    if q.head != q.tail {
      RefillKeepsContents(base);
      assert Open(q.cacheSize, Some(Persisted(q))) == Ok(Refill(base));
    } else {
      assert q.head !in base.disk;
      assert Open(q.cacheSize, Some(Persisted(q))) == Ok(base);
    }
  }
}
