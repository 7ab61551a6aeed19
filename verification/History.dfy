/**
 The fixed-size ring buffer of src/Domain/History.h, proved to be "the last Capacity values pushed since the
 last clear".
 */
module History {
  import opened Retention

  lemma NewestAppend<T>(s: seq<T>, x: T, n: nat)
    requires n > 0
    ensures Newest(Newest(s, n) + [x], n) == Newest(s + [x], n)
  {
  }

  lemma WrapOnce(k: nat, n: nat)
    requires 0 < n && k < 2 * n
    ensures k % n == if k < n then k else k - n
  {
    var q := k / n;
    assert k == q * n + k % n;
    if q >= 2 {
      AtLeastTwice(q, n);
    }
  }

  lemma AtLeastTwice(q: nat, n: nat)
    requires q >= 2
    ensures q * n >= 2 * n
  {
  }

  class History<T> {
    const capacity: nat
    const blank: T
    const data: array<T>
    var writeIndex: nat
    var size: nat

    ghost predicate Valid()
      reads this
    {
      && 0 < capacity == data.Length
      && size <= capacity && writeIndex < capacity
      // Before the first wrap nothing has been overwritten: the next write goes right after the data.
      && (size < capacity ==> writeIndex == size)
    }

    /** The held values, oldest first. */
    ghost function Contents(): (r: seq<T>)
      requires Valid()
      reads this, data
      ensures |r| == size
    {
      if size < capacity then data[..size] else data[writeIndex..] + data[..writeIndex]
    }

    constructor (capacity: nat, blank: T)
      requires capacity > 0
      ensures Valid() && fresh(data) && this.capacity == capacity && this.blank == blank
      ensures Contents() == []
    {
      this.capacity := capacity;
      this.blank := blank;
      data := new T[capacity](_ => blank);
      writeIndex, size := 0, 0;
    }

    method Push(value: T)
      requires Valid()
      modifies this, data
      ensures Valid() && Contents() == Newest(old(Contents()) + [value], capacity)
    {
      WrapOnce(writeIndex + 1, capacity);
      data[writeIndex] := value;
      writeIndex := (writeIndex + 1) % capacity;
      if size < capacity {
        size := size + 1;
      }
    }

    method Clear()
      requires Valid()
      modifies this
      ensures Valid() && Contents() == []
    {
      size := 0;
      writeIndex := 0;
    }

    predicate Full()
      requires Valid()
      reads this, data
      ensures Full() <==> |Contents()| == capacity
    {
      size == capacity
    }

    /** operator[]: 0 is the oldest value. */
    method At(index: nat) returns (value: T)
      requires Valid() && index < size
      ensures value == Contents()[index]
    {
      WrapOnce(writeIndex + capacity - size + index, capacity);
      var readIndex := (writeIndex + capacity - size + index) % capacity;
      value := data[readIndex];
    }

    method Latest() returns (value: T)
      requires Valid()
      ensures value == if Contents() == [] then blank else Contents()[|Contents()| - 1]
    {
      if size == 0 {
        return blank;
      }
      WrapOnce(writeIndex + capacity - 1, capacity);
      value := data[(writeIndex + capacity - 1) % capacity];
    }

    /** Copies the oldest values, in one chunk or, when the wanted part wraps, in two. */
    method CopyTo(buffer: array<T>, maxCount: nat) returns (count: nat)
      requires Valid() && buffer != data
      requires (if maxCount < size then maxCount else size) <= buffer.Length
      modifies buffer
      ensures count == if maxCount < size then maxCount else size
      ensures buffer[..count] == Contents()[..count]
      ensures buffer[count..] == old(buffer[count..])
    {
      count := if maxCount < size then maxCount else size;
      if count == 0 {
        assert buffer[..0] == Contents()[..0];
        return;
      }
      WrapOnce(writeIndex + capacity - size, capacity);
      var readStart := (writeIndex + capacity - size) % capacity;
      ContentsAt(readStart);
      if readStart + count <= capacity {
        forall k | 0 <= k < count {
          buffer[k] := data[readStart + k];
        }
      } else {
        var firstChunk := capacity - readStart;
        forall k | 0 <= k < firstChunk {
          buffer[k] := data[readStart + k];
        }
        forall k | 0 <= k < count - firstChunk {
          buffer[firstChunk + k] := data[k];
        }
      }
    }

    /** Reading starts at the oldest value and wraps at the end of the array. */
    lemma ContentsAt(readStart: nat)
      requires Valid() && readStart == (if size < capacity then 0 else writeIndex)
      ensures forall k :: 0 <= k < size ==>
        Contents()[k] == data[if readStart + k < capacity then readStart + k else readStart + k - capacity]
    {
    }
  }

  // ---------------------------------------------------------------------------------------------
  // Whole runs
  // ---------------------------------------------------------------------------------------------

  datatype Operation<T> = Push(value: T) | Clear

  /** The contents after a run, one operation at a time as Push and Clear promise. */
  function Held<T>(run: seq<Operation<T>>, capacity: nat): seq<T> {
    if run == [] then []
    else
      match run[|run| - 1]
      case Push(value) => Newest(Held(run[..|run| - 1], capacity) + [value], capacity)
      case Clear => []
  }

  function PushedSinceClear<T>(run: seq<Operation<T>>): seq<T> {
    if run == [] then []
    else
      match run[|run| - 1]
      case Push(value) => PushedSinceClear(run[..|run| - 1]) + [value]
      case Clear => []
  }

  lemma {:induction false} HeldIsLastPushed<T>(run: seq<Operation<T>>, capacity: nat)
    requires capacity > 0
    ensures Held(run, capacity) == Newest(PushedSinceClear(run), capacity)
  {
    if run != [] {
      var init := run[..|run| - 1];
      HeldIsLastPushed(init, capacity);
      if run[|run| - 1].Push? {
        NewestAppend(PushedSinceClear(init), run[|run| - 1].value, capacity);
      }
    }
  }
}
