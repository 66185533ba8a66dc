/**
 * Value-level model of `struct circular_buffer` (circular_buffer.c) and of its
 * operations. A `Ring<T>` is a snapshot of the struct's fields; every operation
 * of the C file is a function from one snapshot to the next, and the lemmas of
 * this module state what each operation does to the FIFO contents the buffer
 * represents. The class in module Buffer is proved against these functions.
 */
module RingState {

  /** Outcome of `write` and `overwrite`: EXIT_SUCCESS, or EXIT_FAILURE with errno set to ENOBUFS. */
  datatype WriteStatus = Written | BufferFull

  /** Outcome of `read`: the value stored through `read_value`, or EXIT_FAILURE with errno set to ENODATA. */
  datatype ReadResult<T> = Value(value: T) | BufferEmpty

  /**
   * The fields of `struct circular_buffer`: the storage `ring`, the read and write
   * markers, the number of occupied slots and the capacity.
   */
  datatype Ring<T> = Ring(ring: seq<T>, read: nat, write: nat, slotsUsed: nat, maxRingSize: nat)

  /** A snapshot after `write` or `overwrite`, with the status the call returned. */
  datatype WriteStep<T> = WriteStep(next: Ring<T>, status: WriteStatus)

  /** A snapshot after `read`, with what the call returned. */
  datatype ReadStep<T> = ReadStep(next: Ring<T>, result: ReadResult<T>)

  /**
   * The slot `n` places after slot `i`, wrapping at most once: the index
   * arithmetic of `move_by_one`, which compares with the capacity and resets
   * to 0 instead of dividing.
   */
  function Advance(i: nat, n: nat, maxRingSize: nat): nat
    requires i < maxRingSize && n <= maxRingSize
  {
    if i + n < maxRingSize then i + n else i + n - maxRingSize
  }

  /**
   * The invariant every operation keeps: a positive capacity equal to the
   * storage length, both markers inside the storage, at most `maxRingSize`
   * occupied slots, and the write marker `slotsUsed` places after the read marker.
   */
  predicate Valid<T>(s: Ring<T>) {
    0 < s.maxRingSize && |s.ring| == s.maxRingSize &&
    s.read < s.maxRingSize && s.write < s.maxRingSize &&
    s.slotsUsed <= s.maxRingSize &&
    s.write == Advance(s.read, s.slotsUsed, s.maxRingSize)
  }

  /** The queue a valid buffer holds, oldest element first: the `slotsUsed` slots from `read` on, wrapping. */
  function Contents<T>(s: Ring<T>): seq<T>
    requires Valid(s)
  {
    seq(s.slotsUsed, k requires 0 <= k < s.slotsUsed => s.ring[Advance(s.read, k, s.maxRingSize)])
  }

  /** `x % m` for `0 <= x < 2 * m`, from the definition of Euclidean division. */
  lemma Wrap(x: nat, m: nat)
    requires 0 < m && x < 2 * m
    ensures x % m == if x < m then x else x - m
  {
    if x < m {
      assert x == m * 0 + x;
    } else {
      assert x == m * 1 + (x - m);
    }
  }

  /** Advancing by `n` is adding `n` modulo the capacity. */
  lemma AdvanceIsMod(i: nat, n: nat, maxRingSize: nat)
    requires i < maxRingSize && n <= maxRingSize
    ensures Advance(i, n, maxRingSize) == (i + n) % maxRingSize
  {
    Wrap(i + n, maxRingSize);
  }

  /** The invariant in modular form: `write == (read + slots_used) mod max_ring_size`. */
  lemma WriteMarkerInvariant<T>(s: Ring<T>)
    requires Valid(s)
    ensures s.write == (s.read + s.slotsUsed) % s.maxRingSize
  {
    AdvanceIsMod(s.read, s.slotsUsed, s.maxRingSize);
  }

  /** `move_by_one`: the index after `i`, back to 0 at the end of the storage. */
  function MoveByOne(i: nat, maxRingSize: nat): (j: nat)
    requires i < maxRingSize
    ensures j < maxRingSize && j == Advance(i, 1, maxRingSize)
  {
    if i + 1 == maxRingSize then 0 else i + 1
  }

  /** `move_by_one` adds one modulo the capacity. */
  lemma MoveByOneIsMod(i: nat, maxRingSize: nat)
    requires i < maxRingSize
    ensures MoveByOne(i, maxRingSize) == (i + 1) % maxRingSize
  {
    AdvanceIsMod(i, 1, maxRingSize);
  }

  /** `is_empty` */
  predicate IsEmpty<T>(s: Ring<T>) {
    s.slotsUsed == 0
  }

  /** `is_full` */
  predicate IsFull<T>(s: Ring<T>) {
    s.slotsUsed == s.maxRingSize
  }

  /** The two field tests mean what their names say about the queue. */
  lemma EmptyFullMeaning<T>(s: Ring<T>)
    requires Valid(s)
    ensures IsEmpty(s) <==> Contents(s) == []
    ensures IsFull(s) <==> |Contents(s)| == s.maxRingSize
    ensures IsEmpty(s) || IsFull(s) ==> s.read == s.write
  {
  }

  /** `write`: store at the write marker and advance it, or fail when full. */
  function Write<T>(s: Ring<T>, value: T): (r: WriteStep<T>)
    requires Valid(s)
    ensures Valid(r.next) && r.next.maxRingSize == s.maxRingSize
  {
    if IsFull(s) then WriteStep(s, BufferFull)
    else
      WriteStep(s.(ring := s.ring[s.write := value],
                   write := MoveByOne(s.write, s.maxRingSize),
                   slotsUsed := s.slotsUsed + 1),
                Written)
  }

  /** `overwrite`: `write` when not full; otherwise store at the write marker and advance both markers. */
  function Overwrite<T>(s: Ring<T>, value: T): (r: WriteStep<T>)
    requires Valid(s)
    ensures Valid(r.next) && r.next.maxRingSize == s.maxRingSize
  {
    if !IsFull(s) then WriteStep(Write(s, value).next, Written)
    else
      WriteStep(s.(ring := s.ring[s.write := value],
                   read := MoveByOne(s.read, s.maxRingSize),
                   write := MoveByOne(s.write, s.maxRingSize)),
                Written)
  }

  /** `read`: take the slot at the read marker and advance it, or fail when empty. */
  function Read<T>(s: Ring<T>): (r: ReadStep<T>)
    requires Valid(s)
    ensures Valid(r.next) && r.next.maxRingSize == s.maxRingSize
  {
    if IsEmpty(s) then ReadStep(s, BufferEmpty)
    else
      ReadStep(s.(read := MoveByOne(s.read, s.maxRingSize),
                  slotsUsed := s.slotsUsed - 1),
               Value(s.ring[s.read]))
  }

  /** `clear_buffer`: reset the three counters; storage and capacity stay. */
  function Clear<T>(s: Ring<T>): Ring<T> {
    s.(read := 0, write := 0, slotsUsed := 0)
  }

  /**
   * `new_circular_buffer` as written: any capacity, zero included, with
   * whatever the fresh storage `ring` happens to hold.
   */
  function NewUnchecked<T>(capacity: nat, ring: seq<T>): Ring<T>
    requires |ring| == capacity
  {
    Ring(ring, 0, 0, 0, capacity)
  }

  /** `new_circular_buffer` restricted to the capacities that give a usable buffer. */
  function New<T>(ring: seq<T>): Ring<T>
    requires 0 < |ring|
  {
    NewUnchecked(|ring|, ring)
  }

  /** A new buffer is valid and empty and has the storage it was given. */
  lemma NewSpec<T>(ring: seq<T>)
    requires 0 < |ring|
    ensures Valid(New(ring))
    ensures Contents(New(ring)) == [] && New(ring).maxRingSize == |ring| && New(ring).ring == ring
    ensures New(ring).read == 0 && New(ring).write == 0 && New(ring).slotsUsed == 0
  {
  }

  /**
   * With capacity 0, `new_circular_buffer` hands out a buffer that `is_full`
   * reports full, so `overwrite` takes its full branch and stores to `ring[0]`,
   * one past the end of an empty storage.
   */
  lemma ZeroCapacityOverwriteOutOfBounds<T>()
    ensures var s := NewUnchecked<T>(0, []);
      IsFull(s) && !(s.write < |s.ring|) && !Valid(s)
  {
  }

  /** In a valid buffer the slot `overwrite` stores to always exists. */
  lemma ValidStoresInBounds<T>(s: Ring<T>)
    requires Valid(s)
    ensures s.write < |s.ring| && s.read < |s.ring|
  {
  }

  /**
   * `write`: on a full buffer it reports BufferFull and changes nothing; otherwise
   * it stores the value at the old write marker and nowhere else, and the value
   * becomes the newest element of the queue.
   */
  lemma WriteSpec<T>(s: Ring<T>, value: T)
    requires Valid(s)
    ensures var r := Write(s, value);
      (r.status == BufferFull <==> IsFull(s)) &&
      (IsFull(s) ==> r.next == s) &&
      (!IsFull(s) ==>
        r.next.ring == s.ring[s.write := value] &&
        r.next.read == s.read &&
        r.next.write == (s.write + 1) % s.maxRingSize &&
        r.next.slotsUsed == s.slotsUsed + 1 &&
        r.next.maxRingSize == s.maxRingSize &&
        Contents(r.next) == Contents(s) + [value])
  {
    if !IsFull(s) {
      MoveByOneIsMod(s.write, s.maxRingSize);
    }
  }

  /**
   * `read`: on an empty buffer it reports BufferEmpty and changes nothing;
   * otherwise it returns the oldest element and removes it from the queue,
   * leaving the storage untouched.
   */
  lemma ReadSpec<T>(s: Ring<T>)
    requires Valid(s)
    ensures var r := Read(s);
      (r.result == BufferEmpty <==> IsEmpty(s)) &&
      (IsEmpty(s) ==> r.next == s) &&
      (!IsEmpty(s) ==>
        r.result == Value(Contents(s)[0]) &&
        r.next.ring == s.ring &&
        r.next.read == (s.read + 1) % s.maxRingSize &&
        r.next.write == s.write &&
        r.next.slotsUsed == s.slotsUsed - 1 &&
        r.next.maxRingSize == s.maxRingSize &&
        Contents(r.next) == Contents(s)[1..])
  {
    if !IsEmpty(s) {
      MoveByOneIsMod(s.read, s.maxRingSize);
    }
  }

  /**
   * `overwrite` always reports success. On a buffer that is not full it is
   * `write`; on a full one it stores the value at the write marker, advances
   * both markers, stays full, and the queue drops its oldest element and gains
   * the value as its newest.
   */
  lemma OverwriteSpec<T>(s: Ring<T>, value: T)
    requires Valid(s)
    ensures var r := Overwrite(s, value);
      r.status == Written &&
      (!IsFull(s) ==> r == Write(s, value)) &&
      (IsFull(s) ==>
        r.next.ring == s.ring[s.write := value] &&
        r.next.read == (s.read + 1) % s.maxRingSize &&
        r.next.write == (s.write + 1) % s.maxRingSize &&
        r.next.slotsUsed == s.maxRingSize &&
        r.next.maxRingSize == s.maxRingSize &&
        Contents(r.next) == Contents(s)[1..] + [value])
  {
    WriteSpec(s, value);
    if IsFull(s) {
      MoveByOneIsMod(s.read, s.maxRingSize);
      MoveByOneIsMod(s.write, s.maxRingSize);
    }
  }

  /**
   * `clear_buffer` empties the queue, keeps the storage and the capacity, and
   * doing it twice is doing it once.
   */
  lemma ClearSpec<T>(s: Ring<T>)
    requires Valid(s)
    ensures Valid(Clear(s)) && Contents(Clear(s)) == [] && IsEmpty(Clear(s))
    ensures Clear(s).ring == s.ring && Clear(s).maxRingSize == s.maxRingSize
    ensures Clear(Clear(s)) == Clear(s)
  {
  }
}
