# AdventureX frame stream — a Dafny model

This project models the data core of AdventureX (`AdventureX/DataModel.swift`):
point-cloud frames, the fixed-capacity `RingBuffer` that keeps the most
recent frames, and `PositionData`, which turns a decoded JSON payload into a
frame, writes it to the ring buffer, reads the buffer back and publishes the
newest 10 frames as `frames`.

- `wrappers.dfy` — `Option`, for empty slots and for a missing or mistyped payload field.
- `windows.dfy` — the specification of a recency window: `LastN(h, n)` (the newest
  min(|h|, n) elements of the write history `h`), `Push` (one overwrite-oldest step)
  and `Replay` (the window left by writing `h` one element at a time).
- `ring_buffer.dfy` — `RingBuffer<T>` as a class over an `array<Option<T>>` with
  `readIndex`, `writeIndex`, `count` and a constant `size`. A ghost `History` records
  every element ever written, and the object invariant `Valid` says that the live
  slots, read circularly from `readIndex`, hold exactly `LastN(History, size)`.
- `data_model.dfy` — `Point`, `Frame` and its identity-only equality, the point
  filter `Points`, the stream as a state machine on values (`StreamState`, `Ingest`,
  `Clear`, the invariant `StreamInv`), and the class `PositionData` whose methods are
  proved to follow that state machine.

The dispatch queues are removed: an ingest (the work queued on `updateQueue`
plus the publish queued on the main queue) and a clear are each one atomic
step, applied in call order.

## Model

| member | source | states |
|---|---|---|
| `RingBuffers.RingBuffer.constructor` | AdventureX/DataModel.swift:84-87 | `size` slots, all empty; nothing written; the invariant holds |
| `RingBuffers.RingBuffer.Write` | AdventureX/DataModel.swift:89-97 | the write history grows by the element; the live window moves by exactly one overwrite-oldest `Push`; `count` becomes min(writes, size); both cursors stay in `[0, size)`; the invariant is kept |
| `RingBuffers.WriteStep` | AdventureX/DataModel.swift:89-97 | on plain values: storing at `writeIndex`, advancing it modulo `size`, and either incrementing `count` or (when full) advancing `readIndex` keeps the slots holding the newest min(writes, size) elements |
| `RingBuffers.HoldsAppend` | AdventureX/DataModel.swift:90-93 | while the buffer is not full, filling the slot after the live range extends the live sequence by the new element and disturbs no live slot |
| `RingBuffers.HoldsEvict` | AdventureX/DataModel.swift:90-96 | when the buffer is full, overwriting the slot at `readIndex` and advancing `readIndex` drops exactly the oldest element and appends the new one |
| `RingBuffers.RingBuffer.Read` | AdventureX/DataModel.swift:99-108 | returns exactly the newest min(writes, size) elements in write order, `count` of them, so the `if let` never skips a live slot; it has no `modifies` clause, so buffer, cursors and count are unchanged |
| `RingBuffers.RingBuffer.Latest` | AdventureX/DataModel.swift:110-112 | after at least one write, the element most recently passed to `write`; before any write, nil; reads only |
| `RingBuffers.LatestSlot` | AdventureX/DataModel.swift:110-112 | the slot at `(writeIndex + size - 1) % size` holds the last element written, and is empty on a buffer never written to |
| `Windows.LastN` | AdventureX/DataModel.swift:99-108 | the live window of a history has exactly min(writes, n) elements; with `LastNIsSuffix`, they are the newest ones in write order |
| `Windows.Push` | AdventureX/DataModel.swift:89-97 | one write into a window of capacity `n` leaves a non-empty window of at most `n` elements; `LastNPush` ties it to the declarative window |
| `Windows.LastNPush` | AdventureX/DataModel.swift:89-97 | one more write moves the window of the newest `n` elements by one overwrite-oldest step |
| `Windows.ReplayIsLastN` | AdventureX/DataModel.swift:89-108 | FIFO eviction: writing the history one element at a time leaves exactly its newest min(writes, n) elements, in write order |
| `Windows.FifoEviction` | AdventureX/DataModel.swift:89-108 | writing e1..e(n+k) leaves e(k+1)..e(n+k); with at most n writes, all of them in order |
| `Windows.Replay` | AdventureX/DataModel.swift:89-97 | a ring of capacity `n` never holds more than `n` elements, whatever was written |
| `Windows.LastNIsSuffix` | AdventureX/DataModel.swift:99-108 | the live window is a suffix of the write history: only the oldest elements are ever dropped |
| `Windows.LastNOfLastN` | AdventureX/DataModel.swift:52-55 | truncating the ring's read-back to its newest 10 is the window of the newest min(size, 10) writes |
| `DataModel.Frame.Equals` | AdventureX/DataModel.swift:16-18 | two frames are equal exactly when their ids are equal, whatever their positions; structurally identical frames are equal |
| `DataModel.FrameEqualsIsIdentity` | AdventureX/DataModel.swift:16-18 | frame equality is reflexive, symmetric and transitive, holds exactly when the ids match, and holds between frames whose positions differ |
| `DataModel.ToPoint` | AdventureX/DataModel.swift:41-46 | an entry is dropped exactly when it has fewer than 3 components; a kept entry's point is its first three components, in order, and any further components are ignored |
| `DataModel.Points` | AdventureX/DataModel.swift:40-47 | never more points than entries, and one point per entry exactly when every entry has at least 3 components |
| `DataModel.PointsAppend` | AdventureX/DataModel.swift:40-47 | the filter works entry by entry and keeps input order: filtering a concatenation is the concatenation of the filtered parts |
| `DataModel.PointsOne` | AdventureX/DataModel.swift:41-46 | one entry yields the point of its components 0, 1 and 2 if it has at least 3 components (extra ones ignored), and nothing otherwise |
| `DataModel.PointsMembers` | AdventureX/DataModel.swift:40-47 | a point is in the result exactly when some entry of the cloud has at least 3 components and makes that point |
| `DataModel.PointsDropsShortEntry` | AdventureX/DataModel.swift:40-47 | `[[1,2,3],[1,2]]` gives exactly the one point (1,2,3) |
| `DataModel.Ingest` | AdventureX/DataModel.swift:33-58 | a missing or mistyped point cloud leaves the state unchanged; otherwise the newest published frame is the new frame of the filtered points, and the window has at most 10 frames |
| `DataModel.Init` | AdventureX/DataModel.swift:25-31 | a stream of ring size `frameCount` with an empty window and an empty ring read-back; for a positive size the stream invariant holds |
| `DataModel.Clear` | AdventureX/DataModel.swift:67-72 | same ring size and next id, an empty ring read-back and an empty window; the stream invariant is kept |
| `DataModel.IngestSome` | AdventureX/DataModel.swift:49-55 | writing the new frame, reading the ring back and truncating to the newest 10 gives exactly the state `Ingest` describes, and keeps the stream invariant |
| `DataModel.IngestPreserves` | AdventureX/DataModel.swift:33-65 | every ingest keeps the stream invariant: the window is the newest 10 of what the ring buffer reads back, and frame ids are fresh and increasing in write order |
| `DataModel.ClearPreserves` | AdventureX/DataModel.swift:67-72 | a clear keeps the stream invariant, and clearing twice gives the same state as clearing once |
| `DataModel.WindowIsNewestFrames` | AdventureX/DataModel.swift:52-65 | the published window is the newest min(writes, size, 10) frames, in write order; with no more writes than the ring size and 10, it is every frame written |
| `DataModel.WindowFramesDistinct` | AdventureX/DataModel.swift:12-19 | no two frames of the published window are equal under the app's frame equality; their ids increase oldest to newest |
| `DataModel.SuffixIdsIncreasing` | AdventureX/DataModel.swift:61-65 | dropping the oldest frames keeps ids in increasing order |
| `DataModel.FiveFramesIntoThree` | AdventureX/DataModel.swift:33-65 | with a ring of 3, five single-point frames (1,0,0)..(5,0,0) leave the window holding the frames of (3,0,0), (4,0,0), (5,0,0) in that order |
| `DataModel.PositionData.constructor` | AdventureX/DataModel.swift:29-31 | a fresh ring buffer of `frameCount` slots, an empty window, the invariant established |
| `DataModel.PositionData.GeneratePoints` | AdventureX/DataModel.swift:33-58 | the object's state moves exactly as `Ingest` says; the window has at most 10 frames; a missing or mistyped point cloud changes nothing at all; the invariant is kept |
| `DataModel.PositionData.RemoveOldestFrame` | AdventureX/DataModel.swift:61-65 | the window becomes its own newest min(count, 10) frames, in order |
| `DataModel.PositionData.ClearFrames` | AdventureX/DataModel.swift:67-72 | a fresh ring buffer of the same size whose read-back is empty, an empty window, the next frame id kept; the invariant holds |

## Left out

- The dispatch queues (`updateQueue.async`, `DispatchQueue.main.async`): ingest and clear are modelled as atomic steps applied in call order, so the model says nothing about interleavings or about the window lagging behind the ring buffer.
- `@Observable` and the `shared` singleton: observation and app plumbing, not behaviour of the data.
- The `print` diagnostics: output only.
- `UUID()`: a frame's id is a counter `nextId` kept by `PositionData`; it is not reset by a clear, so no id is ever handed out twice, as with UUIDs.
- The `Double` to `Float` narrowing and `SIMD3<Float>`: coordinates are exact reals and a point is a triple, so rounding is not modelled.
- The dynamic cast `json["pointCloud"] as? [[Double]]`: the payload is given as the result of that cast, `Option<seq<seq<real>>>`, `None` when the field is missing or has another type.
- A ring size of 0 or less: the constructors require a positive size. With size 0 the Swift code still constructs the buffer, `read` returns nothing and `clearFrames` works, but `write` traps on the out-of-range subscript `buffer[writeIndex]` and `latest` traps on `% size`; a negative size traps when the slot array is allocated.
- The published window size is the constant 10 of `removeOldestFrame`, as the code has it, rather than a second configuration parameter bounded by the ring size; the ring size is the constructor's `frameCount`, and the two are not required to agree.
