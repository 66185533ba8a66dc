/**
 * Properties of runs of several buffer operations, built from the per-operation
 * lemmas of RingState: how many inserts a buffer accepts, the FIFO order of
 * removals, wrap-around of the markers, the sliding window of `overwrite`,
 * `clear_buffer` followed by `read`, and the insert/remove round trip.
 */
module RingProperties {
  import opened RingState

  /** A run of `write` calls, one per value in order, with the status each returned. */
  datatype WritesRun<T> = WritesRun(next: Ring<T>, statuses: seq<WriteStatus>)

  /** A run of `read` calls, with what each returned. */
  datatype ReadsRun<T> = ReadsRun(next: Ring<T>, results: seq<ReadResult<T>>)

  /** Calls `write` once for each of `values`, oldest first. */
  function WriteEach<T>(s: Ring<T>, values: seq<T>): (r: WritesRun<T>)
    requires Valid(s)
    ensures Valid(r.next) && |r.statuses| == |values|
    ensures r.next.maxRingSize == s.maxRingSize
    decreases |values|
  {
    if values == [] then WritesRun(s, [])
    else
      WriteSpec(s, values[0]);
      var first := Write(s, values[0]);
      var rest := WriteEach(first.next, values[1..]);
      WritesRun(rest.next, [first.status] + rest.statuses)
  }

  /** Calls `read` `count` times. */
  function ReadEach<T>(s: Ring<T>, count: nat): (r: ReadsRun<T>)
    requires Valid(s)
    ensures Valid(r.next) && |r.results| == count
    ensures r.next.maxRingSize == s.maxRingSize
    decreases count
  {
    if count == 0 then ReadsRun(s, [])
    else
      ReadSpec(s);
      var first := Read(s);
      var rest := ReadEach(first.next, count - 1);
      ReadsRun(rest.next, [first.result] + rest.results)
  }

  /** The results of `read` calls that each returned a value, in order. */
  function Values<T>(xs: seq<T>): seq<ReadResult<T>> {
    seq(|xs|, i requires 0 <= i < |xs| => Value(xs[i]))
  }

  function Min(a: nat, b: nat): nat {
    if a <= b then a else b
  }

  /**
   * Capacity bound: a run of inserts succeeds exactly while free slots remain,
   * and every later insert reports BufferFull.
   */
  lemma {:induction false} WriteEachStatuses<T>(s: Ring<T>, values: seq<T>)
    requires Valid(s)
    ensures forall i :: 0 <= i < |values| ==>
      (WriteEach(s, values).statuses[i] == Written <==> i < s.maxRingSize - |Contents(s)|)
    decreases |values|
  {
    if values != [] {
      WriteSpec(s, values[0]);
      var first := Write(s, values[0]);
      var rest := WriteEach(first.next, values[1..]);
      WriteEachStatuses(first.next, values[1..]);
      var free := s.maxRingSize - |Contents(s)|;
      assert |Contents(s)| == s.slotsUsed && |Contents(first.next)| == first.next.slotsUsed;
      assert free == 0 ==> first.status == BufferFull && first.next == s;
      assert free > 0 ==> first.status == Written && s.maxRingSize - |Contents(first.next)| == free - 1;
      var r := WriteEach(s, values);
      assert r.statuses == [first.status] + rest.statuses;
      forall i | 0 <= i < |values|
        ensures r.statuses[i] == Written <==> i < free
      {
        if i > 0 {
          assert r.statuses[i] == rest.statuses[i - 1];
        }
      }
    }
  }

  /** A run of inserts adds to the queue, in order, exactly the values that fit. */
  lemma {:induction false} WriteEachContents<T>(s: Ring<T>, values: seq<T>)
    requires Valid(s)
    ensures Contents(WriteEach(s, values).next) ==
      Contents(s) + values[..Min(|values|, s.maxRingSize - |Contents(s)|)]
    decreases |values|
  {
    if values != [] {
      WriteSpec(s, values[0]);
      var first := Write(s, values[0]);
      WriteEachContents(first.next, values[1..]);
      ghost var c, c1 := Contents(s), Contents(first.next);
      assert |c| == s.slotsUsed && |c1| == first.next.slotsUsed;
      var free := s.maxRingSize - |c|;
      var tail := values[1..];
      if free == 0 {
        assert first.next == s;
        assert values[..Min(|values|, free)] == [] == tail[..Min(|tail|, free)];
      } else {
        assert c1 == c + [values[0]];
        assert values[..Min(|values|, free)] == [values[0]] + tail[..Min(|tail|, free - 1)];
      }
    }
  }

  /**
   * FIFO: a run of removes returns the queue's elements oldest first, and
   * BufferEmpty for every remove after the queue has run out; what is left is
   * the rest of the queue.
   */
  lemma {:induction false} ReadEachSpec<T>(s: Ring<T>, count: nat)
    requires Valid(s)
    ensures var r := ReadEach(s, count);
      var c := Contents(s);
      Contents(r.next) == c[Min(count, |c|)..] &&
      (forall i :: 0 <= i < count ==> r.results[i] == if i < |c| then Value(c[i]) else BufferEmpty)
    decreases count
  {
    if count > 0 {
      ReadSpec(s);
      var first := Read(s);
      var rest := ReadEach(first.next, count - 1);
      ReadEachSpec(first.next, count - 1);
      var r := ReadEach(s, count);
      assert r.next == rest.next && r.results == [first.result] + rest.results;
      var c := Contents(s);
      if c == [] {
        assert first.next == s && first.result == BufferEmpty;
      } else {
        assert first.result == Value(c[0]) && Contents(first.next) == c[1..];
        assert c[1..][Min(count - 1, |c| - 1)..] == c[Min(count, |c|)..];
      }
      forall i | 0 <= i < count
        ensures r.results[i] == if i < |c| then Value(c[i]) else BufferEmpty
      {
        if i > 0 {
          assert r.results[i] == rest.results[i - 1];
        }
      }
    }
  }

  /**
   * Inserting `values` into an empty buffer they fit in and then removing as
   * many elements gives the values back in insertion order and leaves the
   * buffer empty.
   */
  lemma FifoOrder<T>(s: Ring<T>, values: seq<T>)
    requires Valid(s) && IsEmpty(s) && |values| <= s.maxRingSize
    ensures var w := WriteEach(s, values);
      (forall i :: 0 <= i < |values| ==> w.statuses[i] == Written) &&
      ReadEach(w.next, |values|).results == Values(values) &&
      IsEmpty(ReadEach(w.next, |values|).next)
  {
    EmptyFullMeaning(s);
    WriteEachStatuses(s, values);
    WriteEachContents(s, values);
    assert values[..Min(|values|, s.maxRingSize)] == values;
    var w := WriteEach(s, values);
    assert Contents(w.next) == values;
    ReadEachSpec(w.next, |values|);
    var rd := ReadEach(w.next, |values|);
    assert |rd.results| == |Values(values)|;
    assert forall i :: 0 <= i < |values| ==> rd.results[i] == Value(values[i]);
    EmptyFullMeaning(rd.next);
  }

  /**
   * On a full buffer the next insert reports BufferFull and leaves the buffer
   * as it was; starting empty, that is the insert after `maxRingSize` successful ones.
   */
  lemma InsertPastCapacity<T>(s: Ring<T>, values: seq<T>, extra: T)
    requires Valid(s) && IsEmpty(s) && |values| == s.maxRingSize
    ensures var w := WriteEach(s, values);
      IsFull(w.next) && Write(w.next, extra) == WriteStep(w.next, BufferFull)
  {
    EmptyFullMeaning(s);
    WriteEachContents(s, values);
    var w := WriteEach(s, values);
    EmptyFullMeaning(w.next);
  }

  /**
   * Wrap-around: filling, draining and filling again an empty buffer of
   * capacity N brings both markers back to where they started and keeps FIFO
   * order on the second round, whose indices wrap past the end of the storage.
   */
  lemma WrapAround<T>(s: Ring<T>, first: seq<T>, second: seq<T>)
    requires Valid(s) && IsEmpty(s)
    requires |first| == s.maxRingSize && |second| == s.maxRingSize
    ensures var drained := ReadEach(WriteEach(s, first).next, |first|).next;
      drained.read == s.read && drained.write == s.write && IsEmpty(drained) &&
      ReadEach(WriteEach(drained, second).next, |second|).results == Values(second)
  {
    FifoOrder(s, first);
    var filled := WriteEach(s, first).next;
    var drained := ReadEach(filled, |first|).next;
    MarkersAfterRounds(s, first);
    FifoOrder(drained, second);
  }

  /** A full round of N inserts and N removes moves each marker N places, that is, back to its start. */
  lemma MarkersAfterRounds<T>(s: Ring<T>, values: seq<T>)
    requires Valid(s) && IsEmpty(s) && |values| == s.maxRingSize
    ensures var drained := ReadEach(WriteEach(s, values).next, |values|).next;
      drained.read == s.read && drained.write == s.write
  {
    WritesMoveWrite(s, values);
    WriteEachContents(s, values);
    assert values[..Min(|values|, s.maxRingSize)] == values;
    ReadsMoveRead(WriteEach(s, values).next, |values|);
  }

  /** Inserts that all fit advance the write marker once each and leave the read marker alone. */
  lemma {:induction false} WritesMoveWrite<T>(s: Ring<T>, values: seq<T>)
    requires Valid(s) && |Contents(s)| + |values| <= s.maxRingSize
    ensures WriteEach(s, values).next.write == Advance(s.write, |values|, s.maxRingSize)
    ensures WriteEach(s, values).next.read == s.read
    decreases |values|
  {
    if values != [] {
      WriteSpec(s, values[0]);
      WritesMoveWrite(Write(s, values[0]).next, values[1..]);
    }
  }

  /** Removes that all find an element advance the read marker once each and leave the write marker alone. */
  lemma {:induction false} ReadsMoveRead<T>(s: Ring<T>, count: nat)
    requires Valid(s) && count <= |Contents(s)|
    ensures ReadEach(s, count).next.read == Advance(s.read, count, s.maxRingSize)
    ensures ReadEach(s, count).next.write == s.write
    decreases count
  {
    if count != 0 {
      ReadSpec(s);
      ReadsMoveRead(Read(s).next, count - 1);
    }
  }

  /**
   * Overwrite window: `overwrite` on a full buffer holding v1..vN followed by N
   * removes yields v2..vN and then the new value; the buffer stays full until then.
   */
  lemma OverwriteDropsOldest<T>(s: Ring<T>, value: T)
    requires Valid(s) && IsFull(s)
    ensures var o := Overwrite(s, value).next;
      IsFull(o) &&
      ReadEach(o, s.maxRingSize).results == Values(Contents(s)[1..] + [value])
  {
    OverwriteSpec(s, value);
    EmptyFullMeaning(s);
    var o := Overwrite(s, value).next;
    var window := Contents(s)[1..] + [value];
    assert Contents(o) == window && |window| == s.maxRingSize;
    EmptyFullMeaning(o);
    ReadEachSpec(o, s.maxRingSize);
    var results := ReadEach(o, s.maxRingSize).results;
    assert forall i :: 0 <= i < |window| ==> results[i] == Value(window[i]);
  }

  /** After `clear_buffer`, whatever the buffer held, the next `read` reports BufferEmpty and changes nothing. */
  lemma ClearThenReadFails<T>(s: Ring<T>)
    requires Valid(s)
    ensures Valid(Clear(s)) && Read(Clear(s)) == ReadStep(Clear(s), BufferEmpty)
  {
    ClearSpec(s);
  }

  /** A new buffer reads as empty. */
  lemma NewThenReadFails<T>(ring: seq<T>)
    requires 0 < |ring|
    ensures Valid(New(ring)) && Read(New(ring)).result == BufferEmpty
  {
    NewSpec(ring);
  }

  /**
   * Round trip: on an empty buffer, `read` right after `write(x)` returns x and
   * leaves the buffer empty. On a non-empty buffer it returns the oldest element instead.
   */
  lemma RoundTrip<T>(s: Ring<T>, x: T)
    requires Valid(s)
    ensures var w := Write(s, x).next;
      Read(w).result == if IsEmpty(s) then Value(x) else Value(Contents(s)[0])
    ensures IsEmpty(s) ==> IsEmpty(Read(Write(s, x).next).next)
  {
    EmptyFullMeaning(s);
    WriteSpec(s, x);
    var w := Write(s, x).next;
    ReadSpec(w);
    if IsEmpty(s) {
      assert Contents(w) == [x];
      EmptyFullMeaning(Read(w).next);
    } else {
      assert Contents(w)[0] == Contents(s)[0];
    }
  }
}
