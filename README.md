# circular_buffer in Dafny

A model of `circular_buffer.c`, a fixed-capacity FIFO ring buffer. The buffer
owns a `ring` storage array and three counters: the `read` marker (oldest
element), the `write` marker (next free slot) and `slots_used`. It also has the
fixed capacity `max_ring_size`. `write` inserts or fails when full, `overwrite`
inserts and drops the oldest element when full, `read` pops the oldest element
or fails when empty, `clear_buffer` resets the counters, and
`new_circular_buffer` builds an empty buffer.

Three modules:

- `RingState` (ring_state.dfy) is the value-level model. `Ring<T>` is a
  snapshot of the struct's fields. `Valid` is the invariant the operations
  keep: both markers below the capacity, `slotsUsed <= maxRingSize`, and the
  write marker `slotsUsed` slots after the read marker. Like `move_by_one`,
  `Valid` wraps an index by comparing it with the capacity rather than dividing.
  `WriteMarkerInvariant` proves the modular form
  `write == (read + slotsUsed) % maxRingSize`. `Contents` is the queue the
  buffer holds, oldest element first. Each C function is a function from
  snapshot to snapshot, and one lemma per operation states its effect on the
  fields and on `Contents`.
- `RingProperties` (ring_properties.dfy) covers runs of several operations:
  - the capacity bound;
  - FIFO order;
  - wrap-around of the markers;
  - the sliding window of `overwrite`;
  - `clear_buffer` or a fresh buffer followed by `read`;
  - the insert/remove round trip.
- `Buffer` (circular_buffer.dfy) holds the class `CircularBuffer<T>`. It has
  an `array<T>` storage and the counters as mutable fields. Each method
  updates the fields as the C function does. Each is proved to reach the state
  that the matching `RingState` function computes from the old state, and its
  effect on `Contents()` is restated. `CapacityThreeScenario` is a client that
  runs a capacity-3 sequence of calls through the class contracts alone.

Errors travel as values. `write` and `overwrite` return a `WriteStatus`:
`Written`, or `BufferFull` (ENOBUFS). `read` returns a `ReadResult`: `Value(v)`,
or `BufferEmpty` (ENODATA). The element type is a type parameter `T`, where the
C code fixes it to `uint8_t`.

On an empty buffer, `read` right after `write(x)` returns x. On a non-empty
buffer it returns the oldest element (`RoundTrip`).

## Model

| member | source | states |
|---|---|---|
| `RingState.MoveByOne` | circular_buffer.c:25-30 | the advanced index stays below the capacity and is the slot one place on, wrapping to 0 after the last slot |
| `RingState.MoveByOneIsMod` | circular_buffer.c:25-30 | advancing an index equals (i + 1) mod capacity |
| `RingState.AdvanceIsMod` | circular_buffer.c:25-30 | moving n <= capacity places with one wrap equals adding n modulo the capacity |
| `RingState.WriteMarkerInvariant` | circular_buffer.c:44-84 | in every valid buffer, write == (read + slots_used) mod capacity |
| `RingState.IsEmpty` | circular_buffer.c:32-34 | no contract; defined as `slots_used == 0`; what it means for the queue is stated by `EmptyFullMeaning` |
| `RingState.IsFull` | circular_buffer.c:36-38 | no contract; defined as `slots_used == max_ring_size`; what it means for the queue is stated by `EmptyFullMeaning` |
| `RingState.EmptyFullMeaning` | circular_buffer.c:32-38 | `is_empty` holds iff the queue is empty; `is_full` holds iff the queue holds capacity elements; in either case the markers coincide |
| `RingState.Write` | circular_buffer.c:44-53 | `write` keeps the invariant and the capacity |
| `RingState.WriteSpec` | circular_buffer.c:44-53 | full: BufferFull and nothing changes; otherwise Written, the value is stored at the old write marker and no other slot changes, write advances mod capacity, the count grows by one, and the queue becomes old queue + [value] |
| `RingState.Overwrite` | circular_buffer.c:59-68 | `overwrite` keeps the invariant and the capacity |
| `RingState.OverwriteSpec` | circular_buffer.c:59-68 | always Written; not full: exactly `write`; full: the value is stored at the write marker, both markers advance mod capacity, the count stays at capacity, and the queue becomes old queue[1..] + [value] |
| `RingState.Read` | circular_buffer.c:75-84 | `read` keeps the invariant and the capacity |
| `RingState.ReadSpec` | circular_buffer.c:75-84 | empty: BufferEmpty and nothing changes; otherwise it returns the oldest element, read advances mod capacity, the count drops by one, storage and write marker stay, and the queue loses its head |
| `RingState.ClearSpec` | circular_buffer.c:116-120 | `clear_buffer` leaves a valid empty buffer with the same storage and capacity, and applying it twice equals applying it once |
| `RingState.Clear` | circular_buffer.c:116-120 | no contract; defined as read, write and slots_used set to 0; its properties are stated by `ClearSpec` |
| `RingState.NewUnchecked` | circular_buffer.c:91-101 | no contract; `new_circular_buffer` as written, any capacity including 0, with read, write and slots_used at 0; the capacity-0 case is the one `ZeroCapacityOverwriteOutOfBounds` exhibits |
| `RingState.New` | circular_buffer.c:91-101 | no contract; `NewUnchecked` restricted to a positive capacity; its properties are stated by `NewSpec` |
| `RingState.NewSpec` | circular_buffer.c:91-101 | a new buffer of positive capacity is valid and empty, with read == write == slots_used == 0 and the given capacity and storage |
| `RingState.ZeroCapacityOverwriteOutOfBounds` | circular_buffer.c:59-66 | a buffer created with capacity 0 is reported full, so `overwrite` stores to ring[0] of an empty storage, and it breaks the invariant |
| `RingState.ValidStoresInBounds` | circular_buffer.c:49-65 | in any buffer that keeps the invariant, the slots `write`, `overwrite` and `read` access lie inside the storage |
| `RingProperties.WriteEachStatuses` | circular_buffer.c:44-53 | in a run of inserts, the i-th succeeds iff i is below the number of free slots, so every insert after those reports BufferFull |
| `RingProperties.WriteEachContents` | circular_buffer.c:44-53 | a run of inserts adds to the end of the queue exactly the values that fit, in order |
| `RingProperties.ReadEachSpec` | circular_buffer.c:75-84 | a run of removes yields the queue's elements oldest first, then BufferEmpty for each further remove, and leaves the rest of the queue |
| `RingProperties.FifoOrder` | circular_buffer.c:44-84 | inserting up to capacity values into an empty buffer and removing as many gives them back in insertion order and leaves the buffer empty |
| `RingProperties.InsertPastCapacity` | circular_buffer.c:36-48 | after capacity successful inserts into an empty buffer, it is full, and the next insert reports BufferFull and changes nothing |
| `RingProperties.WritesMoveWrite` | circular_buffer.c:49-51 | inserts that fit advance the write marker by their number, wrapping at the capacity, and leave the read marker alone |
| `RingProperties.ReadsMoveRead` | circular_buffer.c:80-82 | removes that find elements advance the read marker by their number, wrapping at the capacity, and leave the write marker alone |
| `RingProperties.MarkersAfterRounds` | circular_buffer.c:25-30 | capacity inserts then capacity removes bring both markers back to where they started |
| `RingProperties.WrapAround` | circular_buffer.c:25-30 | after a full fill-and-drain round, a second round whose indices wrap past the end of the storage still returns its values in FIFO order |
| `RingProperties.OverwriteDropsOldest` | circular_buffer.c:59-68 | on a full buffer holding v1..vN, `overwrite(x)` keeps it full and the next N removes yield v2..vN, x |
| `RingProperties.ClearThenReadFails` | circular_buffer.c:116-120 | after `clear_buffer`, whatever the buffer held, `read` reports BufferEmpty and changes nothing |
| `RingProperties.NewThenReadFails` | circular_buffer.c:91-101 | on a new buffer `read` reports BufferEmpty |
| `RingProperties.RoundTrip` | circular_buffer.c:44-84 | `read` right after `write(x)` gives x and leaves the buffer empty when it was empty; otherwise it gives the oldest element |
| `Buffer.CircularBuffer.IsEmpty` | circular_buffer.c:32-34 | no contract; defined on the fields as `slots_used == 0`; `TestsMatchState` ties it to `RingState.IsEmpty` |
| `Buffer.CircularBuffer.IsFull` | circular_buffer.c:36-38 | no contract; defined on the fields as `slots_used == max_ring_size`; `TestsMatchState` ties it to `RingState.IsFull` |
| `Buffer.CircularBuffer.TestsMatchState` | circular_buffer.c:32-38 | the class's `is_empty` and `is_full` on the fields agree with the same tests on the `RingState` snapshot |
| `Buffer.CircularBuffer.constructor` | circular_buffer.c:91-101 | fresh storage of exactly capacity slots, all counters 0, a valid empty buffer |
| `Buffer.CircularBuffer.Write` | circular_buffer.c:44-53 | the new state is `RingState.Write` of the old; BufferFull iff the queue held capacity elements; otherwise the queue gains the value at its end |
| `Buffer.CircularBuffer.Overwrite` | circular_buffer.c:59-68 | the new state is `RingState.Overwrite` of the old; always Written; the queue gains the value, and loses its oldest element when it was full |
| `Buffer.CircularBuffer.Read` | circular_buffer.c:75-84 | the new state is `RingState.Read` of the old; BufferEmpty on an empty queue, else the oldest element, which leaves the queue |
| `Buffer.CircularBuffer.Clear` | circular_buffer.c:116-120 | the new state is `RingState.Clear` of the old: an empty queue, storage unchanged |
| `Buffer.CapacityThreeScenario` | circular_buffer.c:44-84 | capacity 3: writes of 1, 2, 3 succeed, 4 is refused, read gives 1, 4 is then accepted, reads give 2, 3, 4, and the next read reports BufferEmpty |

## Left out

- Memory management is not modelled. This covers `malloc`, the `assert` on its result and the flexible array member in `new_circular_buffer` (circular_buffer.c:92-94), and `delete_buffer`, which is only `free` (circular_buffer.c:107-109). The class allocates an `array<T>` of the capacity once, and Dafny's memory is managed.
- The global `errno` side channel and the `EXIT_SUCCESS`/`EXIT_FAILURE` return codes are replaced by the `WriteStatus` and `ReadResult` values.
- circular_buffer.h is not part of this model. It holds only includes, typedefs and prototypes, and its `void` return types in the prototypes disagree with the definitions.
- Concurrency is not modelled: the code has no synchronisation and is single-threaded.
- The `size_t` counters are unbounded `nat`s. Every counter stays at or below the capacity, which is itself a `size_t`, so `*read_write += 1` in `move_by_one` never wraps on a valid buffer.
- `RingState.MoveByOne` returns the new index instead of updating it through a pointer. The methods assign that index to the field the C code passes by address.
- The element type is generic `T`. The class needs `T(0)` because the storage is allocated without initial values, as `malloc` leaves them indeterminate. The `RingState` model takes that storage as a parameter of `New`.
- Buffer.CircularBuffer.constructor, RingState.New, RingState.NewSpec and RingProperties.NewThenReadFails: require a positive capacity, which the C code does not check. See Findings.

## Findings

| source | as written | input that shows it | evidently intended | confidence | as-written member | corrected member |
|---|---|---|---|---|---|---|
| circular_buffer.c:91-101 | `new_circular_buffer` accepts capacity 0; such a buffer is full (`slots_used == max_ring_size == 0`), so `overwrite` stores to `ring[0]`, past the end of a zero-length storage | `new_circular_buffer(0)` followed by `overwrite(buffer, v)` | construction refuses capacity 0, so every store is in bounds | high (not executed) | `RingState.NewUnchecked`, `RingState.ZeroCapacityOverwriteOutOfBounds` | `RingState.NewSpec`, `RingState.ValidStoresInBounds` |

The corrected model is `RingState.New` and the class constructor. Both require
a positive capacity. `RingState.NewSpec` proves that the resulting buffer
satisfies `Valid`, every operation keeps `Valid`, and `ValidStoresInBounds`
proves that every store lands inside the storage.
