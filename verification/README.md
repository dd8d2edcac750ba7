# DiskQueue engine model

A Dafny model of the queue engine of `DiskQueue` (a disk-assisted FIFO queue
in Python). The queue keeps the newest items in a *put buffer* and the oldest
in a *get buffer*. When a put finds the put buffer already holding
`cache_size` items, that buffer is written out as chunk file number `tail`.
A get whose buffer has run dry loads chunk `head`, or takes over the put
buffer when no chunk is live. The index file holds the text `"head,tail"`.

The state is one immutable record, `DiskQueue.Queue`. It holds the two
counters, both buffers, the chunk files as a map from chunk number to items,
and the index file's text. Every operation is a pure function on that
record. The abstraction `DiskQueue.Contents` is the get buffer, then chunks
`head..tail-1`, then the put buffer. Under it, put appends at the back and
get takes from the front.

Modules:
- `Outcomes`: `Option` and `Result`.
- `IndexText`: decimal rendering, `split(',')`, `int()` on digit strings,
  and the in-place rewrite of the index file.
- `ChunkStore`: chunk files as a map, and `Span`, the items of a range of chunks.
- `DiskQueue`: the engine, its invariant `Inv` and the FIFO, length and disk lemmas.
- `Traces`: runs of put/get operations compared with a plain list used as a
  FIFO, plus the fill and drain loops that callers write.
- `Recovery`: opening an existing queue directory, as written and corrected
  (see Findings).

The flush is lazy. It happens before the append, and only when the put
buffer already holds `cache_size` items (main.py:127). So after any put the
put buffer holds between 1 and `cache_size` items.

The index file is named `000` (main.py:14). Chunk files are named `str(n)`
(main.py:62, 72), so chunk 0 is `0` and never coincides with the index file.
The model keeps the index text as a separate field of the state.

## Model

| member | source | states |
|---|---|---|
| `IndexText.NatToString` | src/DiskQueue/main.py:41 | the f-string rendering of a counter is a non-empty digit string without leading zeros |
| `IndexText.Split` | src/DiskQueue/main.py:35 | `split(',')` gives at least one part, no part contains the separator, and joining the parts with it gives back the text |
| `IndexText.SplitOfJoin` | src/DiskQueue/main.py:35 | splitting undoes joining when no part contains the separator |
| `IndexText.ParseNatOfNatToString` | src/DiskQueue/main.py:35 | `int()` reads back every counter the f-string writes |
| `IndexText.NatToStringLengthMonotone` | src/DiskQueue/main.py:56 | a larger counter never has a shorter decimal text |
| `IndexText.NatToStringOfDigitsValue` | src/DiskQueue/main.py:35 | rendering the value of a digit string without leading zeros gives that string back |
| `IndexText.ParseNat` | src/DiskQueue/main.py:35 | `int()` accepts exactly the non-empty digit strings, gives their decimal value, and on one without leading zeros gives the counter whose rendering is that string |
| `IndexText.FormatIndex` | src/DiskQueue/main.py:41 | the index text for `(head, tail)` splits on `,` into exactly the two counter renderings |
| `IndexText.ParseIndex` | src/DiskQueue/main.py:35 | the index parses exactly when it splits on commas into two parts that `int()` both accepts, and then yields those two values in order; text without a comma never parses; text whose two parts have no leading zeros parses only to counters that format back to that text |
| `IndexText.Overwrite` | src/DiskQueue/main.py:53-56 | the rewritten file starts with the new text and keeps the old characters past it; its length is the longer of the two |
| `IndexText.IndexRoundTrip` | src/DiskQueue/main.py:35-41 | parsing the text written for `(head, tail)` gives back exactly `(head, tail)` |
| `IndexText.IndexOverwriteExact` | src/DiskQueue/main.py:53-56 | rewriting in place without truncation leaves exactly the new text when neither counter decreased |
| `ChunkStore.SpanAppend` | src/DiskQueue/main.py:127-130 | writing chunk `tail` and advancing `tail` appends that chunk's items after the live ones |
| `ChunkStore.SpanLength` | src/DiskQueue/main.py:87 | `tail - head` full chunks hold `(tail - head) * cache_size` items |
| `DiskQueue.PersistIndex` | src/DiskQueue/main.py:48-56 | only the index text changes, and it starts with the current `"head,tail"` |
| `DiskQueue.WriteChunk` | src/DiskQueue/main.py:58-64 | chunk `tail` now holds the put buffer, every other chunk and field is unchanged |
| `DiskQueue.WriteChunkInvisible` | src/DiskQueue/main.py:58-64 | a direct checkpoint of the put buffer leaves the logical contents unchanged: the file lands just past the live range |
| `DiskQueue.Len` | src/DiskQueue/main.py:84-88 | under the invariant, `(tail - head) * cache_size + len(get) + len(put)` equals the length of the logical contents |
| `DiskQueue.LoadHead` | src/DiskQueue/main.py:67-82 | if chunk `head` exists, its items replace the get buffer and its file is removed; otherwise the get buffer is untouched; no other chunk or field changes |
| `DiskQueue.Fresh` | src/DiskQueue/main.py:29-45 | a new queue has `head = tail = 0`, empty buffers, no chunk files, index text `"0,0"`, empty contents, and satisfies the invariant when `cache_size >= 1` |
| `DiskQueue.Put` | src/DiskQueue/main.py:122-132 | `head` and the get buffer are unchanged, and the item is last in the put buffer |
| `DiskQueue.PutFlushesFullBuffer` | src/DiskQueue/main.py:127-132 | a put on a full put buffer writes it as chunk `tail`, sets `tail` to `tail + 1`, under the invariant persists an index reading `(head, tail + 1)`, and leaves the put buffer as `[x]`; `head` and the get buffer are unchanged |
| `DiskQueue.PutBelowThreshold` | src/DiskQueue/main.py:127-132 | below the threshold a put only appends to the put buffer: no chunk, counter or index change |
| `DiskQueue.PutPreservesInv` | src/DiskQueue/main.py:122-132 | put keeps the invariant, and afterwards the put buffer holds between 1 and `cache_size` items |
| `DiskQueue.PutAppends` | src/DiskQueue/main.py:122-132 | put makes the contents `old ++ [x]` whenever `head <= tail` |
| `DiskQueue.PutAddsOne` | src/DiskQueue/main.py:84-88 | under the invariant a put adds exactly one to `len` |
| `DiskQueue.Get` | src/DiskQueue/main.py:90-119 | `tail` is unchanged, `head` moves by at most one, and a non-empty get buffer hands out its front item |
| `DiskQueue.Refill` | src/DiskQueue/main.py:101-110 | with `head == tail` the put buffer moves wholesale into the get buffer and disk and index are untouched; otherwise chunk `head` (if its file exists) becomes the get buffer, its file is removed, `head` goes up by one, and under the invariant the index becomes `"head+1,tail"` |
| `DiskQueue.Pop` | src/DiskQueue/main.py:112-119 | an empty get buffer gives None and no change; otherwise the front item is returned and removed, and nothing else changes |
| `DiskQueue.RefillKeepsContents` | src/DiskQueue/main.py:101-110 | refilling an empty get buffer keeps the contents and the invariant, and leaves the get buffer non-empty when anything is queued |
| `DiskQueue.PopFront` | src/DiskQueue/main.py:112-119 | popping a non-empty get buffer returns the first item of the contents and leaves the rest |
| `DiskQueue.GetPreservesInv` | src/DiskQueue/main.py:90-119 | get keeps the invariant |
| `DiskQueue.GetRemovesFront` | src/DiskQueue/main.py:90-119 | on non-empty contents get returns `old[0]`, leaves `old[1..]` and takes one off `len` |
| `DiskQueue.GetOnEmpty` | src/DiskQueue/main.py:103-115 | with both buffers empty and `head == tail`, get returns None and changes no part of the state |
| `DiskQueue.GetNoneIffEmpty` | src/DiskQueue/main.py:97-119 | under the invariant get returns None exactly when the contents are empty, and then nothing changes |
| `DiskQueue.GetDiskAccess` | src/DiskQueue/main.py:101-110 | get changes disk, `head` or index only when the get buffer is empty and `head != tail`; then chunk `head` is deleted, `head` goes up by one and the index reads `(head + 1, tail)` |
| `DiskQueue.IndexMatchesCounters` | src/DiskQueue/main.py:48-56 | under the invariant the index text always parses to the current `(head, tail)` |
| `DiskQueue.EmptyIff` | src/DiskQueue/main.py:98-105 | the contents are empty exactly when both buffers are empty and `head == tail` |
| `DiskQueue.DrainedLeavesOnlyIndex` | src/tests/test_chunking.py:70-87 | a queue with empty contents has no chunk files, and its index holds equal counters |
| `Traces.ExecuteMatchesReference` | src/DiskQueue/main.py:90-132 | any run of puts and gets gives the same get answers and final contents as a plain list used as a FIFO, and keeps the invariant |
| `Traces.LenCountsPutsMinusGets` | src/DiskQueue/main.py:84-88 | after any run, `len` is the earlier length plus the items put minus the items got |
| `Traces.PutAll` | src/tests/test_chunking.py:29-30 | putting a list of items in turn appends them all in order and adds their count to `len` |
| `Traces.DrainAll` | src/tests/test_chunking.py:80-85 | getting until None returns exactly the contents in order and leaves no chunk files |
| `Traces.FillThenDrain` | src/tests/test_chunking.py:55-67 | a fresh queue filled and then drained returns the items in put order, leaves no chunk files, and its index holds equal counters |
| `Recovery.ReadIndex` | src/DiskQueue/main.py:33-35 | the result is `Ok` exactly when the index file exists and parses; a missing file or unparsable text gives the matching error; on success the counters are the parsed ones, the index text and `cache_size` are kept, and both buffers start empty |
| `Recovery.OpenAsWritten` | src/DiskQueue/main.py:29-45 | a missing directory gives a fresh queue; otherwise index errors pass through, and on success the cache size is the one asked for, the counters are the parsed ones with `head` not advanced, chunk `head` (if present) is in the get buffer and its file removed, and the put buffer is empty |
| `Recovery.Open` | src/DiskQueue/main.py:33-45 | corrected `_init_queue`: a missing directory gives a fresh queue; index errors pass through; on success the cache size is the one asked for, the put buffer is empty, chunk `head` (if present) is in the get buffer and its file removed, `tail` is the parsed one; when `head != tail`, `head` advances by one past the loaded chunk and a well-formed index is rewritten to the new counters, as a runtime get does (main.py:101-110); when `head == tail` the counters and the index are unchanged, so a checkpoint file at `tail` comes back in the get buffer |
| `Recovery.LoadWithoutAdvance` | src/DiskQueue/main.py:45 | loading chunk `head` into an empty get buffer without advancing `head` keeps the contents but makes `len` count that chunk twice and breaks the invariant |
| `Recovery.OpenAsWrittenOvercounts` | src/DiskQueue/main.py:33-45 | as written, reopening with a live chunk keeps the durable items but leaves `head` on the deleted chunk, so `len` overcounts by `cache_size` and the invariant fails |
| `Recovery.OpenAsWrittenGetsNoneTooEarly` | src/DiskQueue/main.py:33-45 | as written, with `cache_size = 1`: put 7, 8 and 9, reopen; the first get returns 7, the second returns None while chunk 1 = [8] is still on disk and queued, and the third returns 8 |
| `Recovery.OpenGetsSevenThenEight` | src/DiskQueue/main.py:101-110 | corrected, on the same directory: the reopened queue starts at `head` 1 with [7] in the get buffer, and two gets return 7 and then 8 |
| `Recovery.OpenRestoresDurable` | src/DiskQueue/main.py:101-110 | corrected: reopening yields a queue that satisfies the invariant, holds exactly the live chunks' items in order, and whose `len` is exact |

## Left out

- File I/O (`os.path.exists`, `os.mkdir`, `open`, `os.remove`) is not modelled. Chunk files are a map from chunk number to items. The `marshal` encoding is not modelled; items are opaque values.
- A failed chunk delete only prints a message (main.py:78-82). It is modelled as a delete that succeeds, since printing has no effect on the state.
- The `memory_safe=True` branch (main.py:19-21) only sets `get` and `put` to `None`. It has no behaviour to model.
- The `__main__` demo (main.py:135-150) is not modelled. It uses random data and printing.
- `sync()`, `peek()`, `max_size`, `block`/`timeout` and `Full` are left out. They appear in tests (test_chunking.py:250-417), but `main.py` defines none of them.
- Concurrency and locking are left out. The engine is sequential and has no locks.
- `int()` is modelled on plain digit strings only. Python also accepts a sign, surrounding whitespace and underscores. Negative counters are not modelled; `head` and `tail` are naturals.
- `cache_size` is a natural number. The invariant and every lemma built on it need `cache_size >= 1`. The source does not check this.
- `get` on an empty queue returns Python's `None`, which is ambiguous when `None` is a stored item. The model returns `Option<T>` instead.
- `DiskQueue.WriteChunk` called on its own writes a chunk at `tail` without advancing `tail`. That file is outside `Inv` ("exactly the live chunks are on disk"). A reopen while `head == tail` loads it into the get buffer (`Recovery.Open`); otherwise the next flush overwrites it.
- `Recovery.OpenAsWritten` has no invariant, length or FIFO claim. Its behaviour is stated by the as-written lemmas `Recovery.OpenAsWrittenOvercounts` and `Recovery.OpenAsWrittenGetsNoneTooEarly`.
- Items held only in the buffers are lost on restart. `Recovery.OpenRestoresDurable` states that only the live chunks' items come back. The exception is a put buffer checkpointed by `sync_memory_cache_to_fs` while `head == tail`: `Recovery.Open` loads that file into the get buffer.

## Findings

| source | as written | input that shows it | evidently intended | confidence | as-written member | corrected member |
|---|---|---|---|---|---|---|
| src/DiskQueue/main.py:33-45 | reopening an existing queue loads chunk `head` into the get buffer and deletes its file, but leaves `head` unchanged and does not persist the index | `cache_size = 1`: put 7, 8 and 9 (chunks 0 = [7] and 1 = [8], index "0,2"), reopen: the first get returns 7 and `len` then reports 2 with one item queued; the second get returns None although chunk 1 = [8] is still on disk; the third returns 8 | when the loaded chunk is live (`head != tail`), advance `head` past it and persist the index, as a runtime get does (main.py:108-110), so the same reopen gives 7 and then 8; with `head == tail` keep loading the file at `head` unchanged, so a checkpoint from `sync_memory_cache_to_fs` still comes back; the `_init_queue` docstring (main.py:31) says reopening recovers the checkpoints, and the reopen test at src/tests/test_chunking.py:273-295 (which also calls a `sync()` that main.py does not define) expects every item back in order | not executed; high | `Recovery.OpenAsWrittenOvercounts`, `Recovery.OpenAsWrittenGetsNoneTooEarly` | `Recovery.OpenRestoresDurable`, `Recovery.OpenGetsSevenThenEight` |
