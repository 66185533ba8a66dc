/**
 * `struct circular_buffer` and the functions of circular_buffer.c that update
 * it in place. Each method changes the fields and the storage slot the C
 * function changes, and is proved to leave the buffer in the state the
 * matching RingState function computes from the old one; what that means for
 * the queue is stated again here, in terms of `Contents()`.
 */
module Buffer {
  import opened RingState

  class CircularBuffer<T(0)> {
    /** The storage, allocated once by the constructor. */
    const ring: array<T>
    /** The read marker: the slot of the oldest element. */
    var read: nat
    /** The write marker: the slot the next element goes to. */
    var write: nat
    /** The number of occupied slots. */
    var slotsUsed: nat
    /** The capacity. */
    const maxRingSize: nat

    /** The fields as a RingState snapshot. */
    ghost function State(): Ring<T>
      reads this, ring
    {
      Ring(ring[..], read, write, slotsUsed, maxRingSize)
    }

    ghost predicate Valid()
      reads this, ring
    {
      RingState.Valid(State())
    }

    /** The queue the buffer holds, oldest element first. */
    ghost function Contents(): seq<T>
      reads this, ring
      requires Valid()
    {
      RingState.Contents(State())
    }

    /** `is_empty` */
    predicate IsEmpty()
      reads this
    {
      slotsUsed == 0
    }

    /** `is_full` */
    predicate IsFull()
      reads this
    {
      slotsUsed == maxRingSize
    }

    /** The two tests on the fields are the RingState tests on the snapshot. */
    lemma TestsMatchState()
      ensures IsEmpty() <==> RingState.IsEmpty(State())
      ensures IsFull() <==> RingState.IsFull(State())
    {
    }

    /** `new_circular_buffer`: fresh storage of `capacity` slots and all three counters at 0. */
    constructor (capacity: nat)
      requires 0 < capacity
      ensures fresh(ring) && ring.Length == capacity
      ensures State() == New(ring[..]) && maxRingSize == capacity
      ensures Valid() && Contents() == []
    {
      ring := new T[capacity];
      maxRingSize := capacity;
      read := 0;
      write := 0;
      slotsUsed := 0;
      new;
      NewSpec(ring[..]);
    }

    /**
     * `write`: BufferFull and no change when full; otherwise the value goes to
     * the slot at the write marker and becomes the newest element.
     */
    method Write(value: T) returns (status: WriteStatus)
      requires Valid()
      modifies this`write, this`slotsUsed, ring
      ensures State() == RingState.Write(old(State()), value).next
      ensures status == RingState.Write(old(State()), value).status
      ensures Valid()
      ensures status == BufferFull <==> old(|Contents()|) == maxRingSize
      ensures Contents() == if status == BufferFull then old(Contents()) else old(Contents()) + [value]
    {
      ghost var s := State();
      WriteSpec(s, value);
      EmptyFullMeaning(s);
      if IsFull() {
        return BufferFull;
      }
      ring[write] := value;
      write := MoveByOne(write, maxRingSize);
      slotsUsed := slotsUsed + 1;
      status := Written;
    }

    /**
     * `overwrite`: `write` when not full; when full the value replaces the
     * oldest element's slot and both markers advance. Always Written.
     */
    method Overwrite(value: T) returns (status: WriteStatus)
      requires Valid()
      modifies this`read, this`write, this`slotsUsed, ring
      ensures State() == RingState.Overwrite(old(State()), value).next
      ensures status == Written
      ensures Valid()
      ensures old(|Contents()|) < maxRingSize ==> Contents() == old(Contents()) + [value]
      ensures old(|Contents()|) == maxRingSize ==> Contents() == old(Contents())[1..] + [value]
    {
      ghost var s := State();
      OverwriteSpec(s, value);
      WriteSpec(s, value);
      EmptyFullMeaning(s);
      if !IsFull() {
        var ignored := Write(value);
      } else {
        ring[write] := value;
        read := MoveByOne(read, maxRingSize);
        write := MoveByOne(write, maxRingSize);
      }
      status := Written;
    }

    /**
     * `read`: BufferEmpty and no change when empty; otherwise the oldest
     * element, which leaves the queue.
     */
    method Read() returns (result: ReadResult<T>)
      requires Valid()
      modifies this`read, this`slotsUsed
      ensures State() == RingState.Read(old(State())).next
      ensures result == RingState.Read(old(State())).result
      ensures Valid()
      ensures old(Contents()) == [] ==> result == BufferEmpty && Contents() == []
      ensures old(Contents()) != [] ==> result == Value(old(Contents())[0]) && Contents() == old(Contents())[1..]
    {
      ghost var s := State();
      ReadSpec(s);
      EmptyFullMeaning(s);
      if IsEmpty() {
        return BufferEmpty;
      }
      result := Value(ring[read]);
      read := MoveByOne(read, maxRingSize);
      slotsUsed := slotsUsed - 1;
    }

    /** `clear_buffer`: the queue becomes empty; the storage keeps its values. */
    method Clear()
      requires Valid()
      modifies this`read, this`write, this`slotsUsed
      ensures State() == RingState.Clear(old(State()))
      ensures Valid() && Contents() == [] && ring[..] == old(ring[..])
    {
      ClearSpec(State());
      read := 0;
      write := 0;
      slotsUsed := 0;
    }
  }

  /**
   * Capacity 3: write 1, 2, 3 succeed; write 4 reports BufferFull; read gives 1;
   * write 4 now succeeds; three reads give 2, 3, 4; a fourth reports BufferEmpty.
   */
  method CapacityThreeScenario() returns (statuses: seq<WriteStatus>, results: seq<ReadResult<int>>)
    ensures statuses == [Written, Written, Written, BufferFull, Written]
    ensures results == [Value(1), Value(2), Value(3), Value(4), BufferEmpty]
  {
    var b := new CircularBuffer<int>(3);
    var w1 := b.Write(1);
    var w2 := b.Write(2);
    var w3 := b.Write(3);
    assert b.Contents() == [1, 2, 3];
    var w4 := b.Write(4);
    var r1 := b.Read();
    assert b.Contents() == [2, 3];
    var w5 := b.Write(4);
    assert b.Contents() == [2, 3, 4];
    var r2 := b.Read();
    var r3 := b.Read();
    assert b.Contents() == [4];
    var r4 := b.Read();
    var r5 := b.Read();
    statuses := [w1, w2, w3, w4, w5];
    results := [r1, r2, r3, r4, r5];
  }
}
