# peco line buffers in Dafny

This project models the sequential buffer logic of peco's `buffer.go`. peco is an interactive
line-selection tool, and this file is its data plane:

- **RawLineBuffer** is an appendable store of lines. It has an optional capacity and a registry
  of dependent buffers.
- **dependentBuffers** is that registry. It is an ordered list of buffer identities, with
  register, unregister and broadcast-invalidate operations.
- **MemoryBuffer** is the store behind the input source. Only its `Size`/`LineAt` bounds logic
  is modelled.
- **FilteredBuffer** is a read-only page of another buffer. It is defined by an explicit list of
  source indices (the *selection*).

Line values are opaque, so they are a type parameter `L`. Buffers in the registry are compared
by identity, so they are modelled as `BufferId` numbers.

Files:

- `results.dfy` holds the two error values (`OutOfRange` for `ErrBufferOutOfRange`, and
  `EmptyBuffer` for the "empty buffer" error) and the `Result` type.
- `registry.dfy` holds the `DependentBuffers` class and the removal functions.
- `buffers.dfy` holds the `Buffer` interface as a datatype (`Raw`, `Memory` and `Filtered`
  variants), `MemoryLineAt`, `NewFilteredBuffer` and the page lemmas.
- `raw_line_buffer.dfy` holds the `RawLineBuffer` class and the append functions.

The two classes, `RawLineBuffer` and `DependentBuffers`, update their fields in place, as the
Go code does through pointer receivers. MemoryBuffer and FilteredBuffer are never changed by
the modelled code, so they are values. The code's behaviour is modelled as written, in two
places where it differs from what the code itself sets out to do:

- The eviction in `Append` computes `diff := len(lines) - capacity`, the number of oldest lines
  to drop, so keeping the lines from `diff` on plus the new line was meant. Instead it checks the
  size before appending, drops the new line and keeps `lines[diff..capacity]`. It notifies no
  dependent buffer. With capacity 2, appending a, b, c leaves all three lines, not two.
- `Unregister` splices with a prefix that ends at `i-1`, so it also removes the predecessor of a
  non-head match. `Register` does not check for duplicates.

The classes keep this written behaviour. The corrected definitions and their proved properties
stand beside them, as listed under "## Findings".

A Go runtime panic is modelled as a precondition, because the code gives its callers no error
path for it:

- `CanAppend`: the eviction slice needs `diff <= capacity`.
- `MemoryCanLookUp`: a negative index into a non-empty MemoryBuffer panics.
- `Buffer.CanLookUp`: a negative index into a FilteredBuffer's selection panics.

## Model

| member | source | states |
|---|---|---|
| Registry.IndexOf | buffer.go:57-58 | the scan finds the first registered occurrence of the buffer, or reports that it is absent |
| Registry.FirstIndexUnique | buffer.go:57-58 | any index holding the buffer with no earlier occurrence is the one the scan stops at |
| Registry.UnregisterAbsent | buffer.go:56-70 | unregistering a buffer that is not registered leaves the registry unchanged |
| Registry.UnregisterFirstMatch | buffer.go:57-66 | only the first match is acted on; a head match leaves exactly the tail; a match at i > 0 leaves entries before i-1 followed by entries after i |
| Registry.UnregisterDropsPredecessor | buffer.go:63-65 | for a non-head match the registry shrinks by two: the match and its unrelated predecessor both go |
| Registry.RegisterThenUnregisterAsWritten | buffer.go:52-65 | registering a new buffer and unregistering it again also loses the previously last entry |
| Registry.UnregisterTailExample | buffer.go:62-63 | removing 2 from [1, 2] leaves [] as written, and [1] with the corrected removal |
| Registry.Unregistered | buffer.go:56-70 | corrected removal: absent means unchanged; present means one entry fewer, and the multiset loses exactly one copy of the buffer |
| Registry.UnregisteredAt | buffer.go:56-70 | corrected removal cuts out exactly the first match and keeps every other entry in order |
| Registry.RegisterThenUnregister | buffer.go:52-70 | with corrected removal, unregistering a newly registered buffer restores the registry |
| Registry.UnregisterAsWritten | buffer.go:59-66 | the written removal: an absent buffer leaves the registry unchanged; a present one shrinks it by one or two entries, and the multiset loses at least the match |
| Registry.DependentBuffers.constructor | buffer.go:52-54 | a registry starts empty, as the zero-value slice does |
| Registry.DependentBuffers.Register | buffer.go:52-54 | appends at the end without a duplicate check; length grows by one and the old entries form the prefix |
| Registry.DependentBuffers.Unregister | buffer.go:56-70 | the first-match loop and its three splice branches leave exactly the written removal of the old registry |
| Registry.DependentBuffers.InvalidateUpTo | buffer.go:72-76 | every registered buffer is notified with the same index, once each, in registration order |
| Buffers.RawLineAt | buffer.go:138-142 | RawLineBuffer lookup succeeds with the i-th line exactly when 0 <= i < len(lines); every other index gets ErrBufferOutOfRange |
| Buffers.PageSelection | buffer.go:170-183 | the page selection is the consecutive run from the page start, holds at most max(0, perPage) entries, and ends below the source size |
| Buffers.MemoryLineAt | buffer.go:235-245 | MemoryBuffer lookup succeeds with the n-th line exactly when n is below the size; every other index gets the "empty buffer" error |
| Buffers.Buffer.Size | buffer.go:203-233 | FilteredBuffer.Size and MemoryBuffer.Size: a store's size is its number of lines; a view's size is its selection's length, not its source's size |
| Buffers.Buffer.LineAt | buffer.go:193-201 | a lookup through the interface succeeds only below Size(); a view answers out of range at or past its selection's end |
| Buffers.Buffer.Append | buffer.go:189-191 | a view hands the line back without error and stores nothing: size, validity and every lookup stay the same |
| Buffers.ValidLineAt | buffer.go:196-201 | on a well-formed buffer (every selection entry indexes its source), each non-negative lookup returns; it succeeds exactly below Size() and yields the presented line |
| Buffers.NewFilteredBuffer | buffer.go:165-187 | the counting loop builds exactly the page selection of the source |
| Buffers.PageBeyondEnd | buffer.go:170-173 | a page whose start lies past the source's end is empty |
| Buffers.PageIsConsecutive | buffer.go:175-183 | otherwise the selection is the run start, start+1, … up to min(start+perPage, N), of length max(0, min(perPage, N - start)) |
| Buffers.PageInBounds | buffer.go:170-183 | for page >= 1 and perPage >= 0 every selection entry lies in [0, N) |
| Buffers.PageStartNonNegative | buffer.go:170 | for page >= 1 and perPage >= 0 the page starts at a non-negative source index |
| Buffers.RangeShowsSlice | buffer.go:175-187 | a view of the consecutive source indices [s, e) within a well-formed source is well-formed and presents exactly the source slice [s, e) |
| Buffers.RangeLineAt | buffer.go:196-201 | in that view the i-th lookup returns and equals the source lookup at s + i |
| Buffers.PageShowsSlice | buffer.go:165-201 | a page over a well-formed source is well-formed, presents exactly the source slice [start, end), and its i-th lookup equals the source's lookup at start + i |
| Buffers.PageZeroIsNegative | buffer.go:170-183 | page 0 yields a selection that starts at the negative index -perPage |
| RawLineBuffers.AppendAsWritten | buffer.go:117-124 | the written append either stores the line behind all old lines, or leaves fewer than capacity old lines as one contiguous run from diff and loses the new line |
| RawLineBuffers.AppendAtTail | buffer.go:115-124 | when unbounded or not above capacity, Append stores the line at the tail, grows the size by exactly one and keeps earlier lines |
| RawLineBuffers.AppendOverCapacity | buffer.go:117-121 | above capacity, the new line is not stored; what remains is the run of old lines from diff to capacity, which is fewer than capacity lines |
| RawLineBuffers.AppendKeepsBounded | buffer.go:117-124 | with a fixed capacity, a buffer of at most capacity+1 lines stays so and never reaches the panicking slice |
| RawLineBuffers.AppendAllAsWritten | buffer.go:115-127 | any run of appends under a fixed capacity keeps the buffer within capacity+1 lines |
| RawLineBuffers.AppendAllUnbounded | buffer.go:115-127 | with capacity 0, a run of appends adds the lines at the tail in order |
| RawLineBuffers.CapacityTwoKeepsThree | buffer.go:117-123 | with capacity 2, appending a, b, c leaves [a, b, c] |
| RawLineBuffers.EvictionEmptiesBuffer | buffer.go:117-121 | with capacity 1, appending a, b, c leaves an empty buffer |
| RawLineBuffers.AppendEvicting | buffer.go:117-124 | corrected append: the new line is always stored last, the result is the newest lines of old lines plus the new one, and it holds min(size+1, capacity) lines when bounded |
| RawLineBuffers.EvictionNotices | buffer.go:117-121 | corrected eviction tells every registered buffer, in registration order, the number of lines the corrected append drops; an append that drops nothing notifies nobody |
| RawLineBuffers.ShrunkCapacityPanics | buffer.go:150-155 | a new buffer given three lines by Append and then SetCapacity(1) holds 3 lines under capacity 1, outside CanAppend: its next Append would panic in the eviction slice |
| RawLineBuffers.AppendAllEvictingKeepsNewest | buffer.go:115-127 | after any run of corrected appends the buffer holds exactly the newest capacity lines ever appended |
| RawLineBuffers.EvictingAfterManyAppends | buffer.go:115-127 | corrected, capacity c > 0, n > c appends from empty: size c and the first line is the (n-c)-th appended (from 0) |
| RawLineBuffers.RawLineBuffer.constructor | buffer.go:78-84 | a new buffer is empty, unbounded (capacity 0) and has an empty registry |
| RawLineBuffers.RawLineBuffer.Append | buffer.go:115-127 | returns the line without error and makes no invalidation call, even when it evicts; the new lines are the written append of the old ones; capacity and registry are unchanged; the capacity+1 bound is preserved |
| RawLineBuffers.RawLineBuffer.AppendLine | buffer.go:161-163 | behaves exactly as Append: same result, no invalidation call, same new lines, capacity, registry and bound |
| RawLineBuffers.RawLineBuffer.SetCapacity | buffer.go:150-155 | capacity becomes max(c, 0), and is 0 exactly for c <= 0; lines and registry are untouched |
| RawLineBuffers.RawLineBuffer.InvalidateUpTo | buffer.go:157-159 | changes nothing in the buffer or its registry |
| RawLineBuffers.RawLineBuffer.Register | buffer.go:129-131 | the registry gains the buffer at its end; the buffer's lines and capacity are untouched |
| RawLineBuffers.RawLineBuffer.Unregister | buffer.go:133-135 | the registry becomes the written removal of the old registry; lines and capacity are untouched |
| RawLineBuffers.RawLineBuffer.LineAt | buffer.go:137-143 | succeeds with the i-th line exactly when 0 <= i < Size(); otherwise ErrBufferOutOfRange |
| RawLineBuffers.RawLineBuffer.Size | buffer.go:145-148 | the number of stored lines, which is exactly the set of indices LineAt accepts |
| RawLineBuffers.RawLineBuffer.View | buffer.go:208-213 | the buffer seen through the Buffer interface has the same size and answers every lookup as the buffer does |

## Left out

- The pipeline protocol is not modelled: `acceptPipeline`, `simplePipeline`'s `Cancel`/`CancelCh`/`OutputCh`/`Pipeline`, `RawLineBuffer.Accept` and `RawLineBuffer.Replay`. They are goroutines, channel selects, `close` and `recover`, and their point is concurrent cancellation.
- `Source` is not modelled (`NewSource`, `Setup`, `Start`, `Ready`). It is I/O over a scanner, a ticker-driven redraw goroutine, `sync.Once` and channel signalling.
- The MemoryBuffer mutex and `locker()` are left out. The lock is taken on a copy of the receiver, so it excludes nothing; only the bounds logic is kept.
- Trace calls, error message texts, and the internals of `Line` and `NewRawLine` are left out. Lines are an opaque type parameter.
- Go's `int` is 64 bits wide. The model uses unbounded integers, so an overflow of `perPage * (page - 1)` is not modelled.
- A FilteredBuffer holds its source as a value. A later append to a RawLineBuffer behind the same pointer is seen only by a view built over the new value.
- Dependent buffers are identities. Invalidation calls are modelled as the list of calls a method returns (`DependentBuffers.InvalidateUpTo`'s result, `Append`'s `notified`); what a registered buffer does when called is not modelled.
- Runtime panics (the eviction slice, negative lookups) are preconditions, not modelled outcomes.

## Findings

| source | as written | input that shows it | evidently intended | confidence | as-written member | corrected member |
|---|---|---|---|---|---|---|
| buffer.go:62-65 | the prefix kept before a non-head match ends at i-1 | registry [1, 2], unregister 2: the registry becomes [] | remove exactly the match, leaving [1] | high; not executed | Registry.UnregisterDropsPredecessor | Registry.Unregistered |
| buffer.go:117-121 | the size is checked before the append; eviction keeps lines[diff..capacity] and drops the new line | capacity 1, append a, b, c: the buffer becomes empty | keep the newest capacity lines including the new one, leaving [c], and notify the dependent buffers of the dropped count | high; not executed | RawLineBuffers.EvictionEmptiesBuffer | RawLineBuffers.AppendAllEvictingKeepsNewest |
| buffer.go:117-121 | the eviction slice needs diff <= capacity, which SetCapacity can break | three lines, SetCapacity(1), then Append: the slice runs from 2 to 1 and panics | drop the oldest lines whatever the capacity was lowered to | high; not executed | RawLineBuffers.ShrunkCapacityPanics | RawLineBuffers.AppendEvicting |
