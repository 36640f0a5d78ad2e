// The circular buffer of system.cpp (class Buffer): a fixed array of item
// slots with `front`, `rear` and `buffer_size` moving modulo the capacity,
// plus the `finished` flag. The mutex and condition variables are not
// modelled; each blocking wait becomes the precondition under which the wait
// returns.
module RingBuffer {
  import opened EventLog

  /** The logical contents of a ring: `size` slots read from `front` onward,
      wrapping around at the end of `slots`. */
  function RingView(slots: seq<string>, front: int, size: nat): (view: seq<string>)
    requires |slots| > 0 && 0 <= front
    ensures |view| == size
  {
    if size == 0 then [] else RingView(slots, front, size - 1) + [slots[(front + size - 1) % |slots|]]
  }

  /** The k-th item of a view is the slot k places past `front`, wrapped. */
  lemma {:induction false} RingViewAt(slots: seq<string>, front: int, size: nat, k: int)
    requires |slots| > 0 && 0 <= front && 0 <= k < size
    ensures RingView(slots, front, size)[k] == slots[(front + k) % |slots|]
    decreases size
  {
    if k < size - 1 {
      RingViewAt(slots, front, size - 1, k);
    }
  }

  lemma ModWindow(a: int, n: int)
    requires 0 < n && 0 <= a < 2 * n
    ensures a % n == if a < n then a else a - n
  {
  }

  lemma ModUnique(a: int, n: int, q: int, r: int)
    requires 0 < n && 0 <= r < n && a == q * n + r
    ensures a % n == r
  {
    var q0, r0 := a / n, a % n;
    assert q0 * n + r0 == q * n + r;
    if q > q0 {
      assert (q - q0) * n == q * n - q0 * n;
      MulAtLeast(q - q0, n);
    } else if q < q0 {
      assert (q0 - q) * n == q0 * n - q * n;
      MulAtLeast(q0 - q, n);
    }
  }

  lemma MulAtLeast(d: int, n: int)
    requires 1 <= d && 0 < n
    ensures d * n >= n
  {
    assert d * n == (d - 1) * n + n;
  }

  /** Reducing a summand modulo n first does not change the sum modulo n. */
  lemma ModAdd(a: int, b: int, n: int)
    requires 0 < n && 0 <= a && 0 <= b
    ensures (a % n + b) % n == (a + b) % n
  {
    var q, r := a / n, a % n;
    var q', r' := (r + b) / n, (r + b) % n;
    assert a + b == (q + q') * n + r' by {
      assert a == q * n + r;
      assert r + b == q' * n + r';
    }
    ModUnique(a + b, n, q + q', r');
  }

  /** Writing at the slot just past the last live one, and counting it,
      appends the item to the view. */
  lemma ViewAfterWrite(slots: seq<string>, front: int, size: nat, item: string)
    requires 0 <= front < |slots| && size < |slots|
    ensures RingView(slots[(front + size) % |slots| := item], front, size + 1)
         == RingView(slots, front, size) + [item]
  {
    var n := |slots|;
    var written := slots[(front + size) % n := item];
    ModWindow(front + size, n);
    var after, before := RingView(written, front, size), RingView(slots, front, size);
    forall k | 0 <= k < size
      ensures after[k] == before[k]
    {
      RingViewAt(written, front, size, k);
      RingViewAt(slots, front, size, k);
      ModWindow(front + k, n);
    }
    assert after == before;
  }

  /** Reading the front slot gives the oldest item; advancing `front` and
      counting one less drops it from the view. */
  lemma ViewAfterTake(slots: seq<string>, front: int, size: nat)
    requires 0 <= front < |slots| && 0 < size <= |slots|
    ensures RingView(slots, front, size)[0] == slots[front]
    ensures RingView(slots, (front + 1) % |slots|, size - 1) == RingView(slots, front, size)[1..]
  {
    var n := |slots|;
    var next := (front + 1) % n;
    ModWindow(front, n);
    ModWindow(front + 1, n);
    RingViewAt(slots, front, size, 0);
    var after, before := RingView(slots, next, size - 1), RingView(slots, front, size);
    forall k | 0 <= k < size - 1
      ensures after[k] == before[k + 1]
    {
      RingViewAt(slots, next, size - 1, k);
      RingViewAt(slots, front, size, k + 1);
      ModWindow(front + 1 + k, n);
      if front + 1 < n {
        assert next == front + 1;
      } else {
        assert next == 0;
        ModWindow(k, n);
      }
    }
    assert after == before[1..];
  }

  /** Putting a non-empty item at position `at`, just past the live slots of
      a ring with room whose view holds no empty item: the view gains the
      item at the back and still holds no empty item. */
  lemma PutIntoView(slots: seq<string>, front: int, size: nat, at: int, view: seq<string>, item: string)
    requires 0 <= front < |slots| && size < |slots| && at == (front + size) % |slots|
    requires view == RingView(slots, front, size) && "" !in view && item != ""
    ensures view + [item] == RingView(slots[at := item], front, size + 1)
    ensures "" !in view + [item]
  {
    ViewAfterWrite(slots, front, size, item);
  }

  /** On a full ring the next write position, `capacity` slots past the
      front, is the front slot itself: the write overwrites the oldest item
      and the view, still read for `capacity` slots, starts with the new one. */
  lemma PutIntoFullView(slots: seq<string>, front: int, at: int, view: seq<string>, item: string)
    requires 0 <= front < |slots| && at == (front + |slots|) % |slots|
    requires view == RingView(slots, front, |slots|)
    ensures at == front
    ensures RingView(slots[at := item], front, |slots|) == [item] + view[1..]
  {
    var n := |slots|;
    ModWindow(front + n, n);
    ModWindow(front, n);
    var after := RingView(slots[front := item], front, n);
    RingViewAt(slots[front := item], front, n, 0);
    forall k | 1 <= k < n
      ensures after[k] == view[k]
    {
      RingViewAt(slots[front := item], front, n, k);
      RingViewAt(slots, front, n, k);
      ModWindow(front + k, n);
    }
    assert after == [item] + view[1..];
  }

  /** Taking from a ring whose view holds no empty item: the item taken is
      the oldest one and not empty, and what stays is the rest of the view. */
  lemma TakeFromView(slots: seq<string>, front: int, size: nat, view: seq<string>)
    requires 0 <= front < |slots| && 0 < size <= |slots|
    requires view == RingView(slots, front, size) && "" !in view
    ensures slots[front] == view[0] != ""
    ensures view[1..] == RingView(slots, (front + 1) % |slots|, size - 1) && "" !in view[1..]
  {
    ViewAfterTake(slots, front, size);
  }

  class Buffer {
    const capacity: int
    const slots: array<string>
    var front: int
    var rear: int
    var size: int
    var finished: bool
    /** The items in the buffer, oldest first. */
    ghost var Contents: seq<string>

    /** What every operation keeps: the indices stay inside the array and
        `rear` is `size` slots past `front`. */
    ghost predicate WellFormed()
      reads this
    {
      slots.Length == capacity >= 1 &&
      0 <= front < capacity && 0 <= rear < capacity && 0 <= size &&
      rear == (front + size) % capacity
    }

    /** The intended invariant: at most `capacity` live items, none empty,
        and Contents is what the live slots hold. */
    ghost predicate Valid()
      reads this, slots
    {
      WellFormed() && size <= capacity &&
      Contents == RingView(slots[..], front, size) && "" !in Contents
    }

    constructor (cap: int)
      requires cap >= 1
      ensures Valid() && Contents == []
      ensures capacity == cap && fresh(slots)
      ensures front == 0 && rear == 0 && size == 0 && !finished
      ensures forall k :: 0 <= k < cap ==> slots[k] == ""
    {
      capacity := cap;
      slots := new string[cap](_ => "");
      front, rear, size := 0, 0, 0;
      finished := false;
      Contents := [];
    }

    /** Stores a non-empty item at `rear`; an empty item is only logged.
        The wait at system.cpp:40 falls through once the buffer has room or
        is finished; a finished, full buffer still takes the item. */
    method Insertar(item: string, log: Log, producer: int)
      requires WellFormed()
      requires size < capacity || finished
      modifies this, slots, log
      ensures WellFormed() && finished == old(finished) && front == old(front)
      ensures item == "" ==>
        slots[..] == old(slots[..]) && rear == old(rear) && size == old(size) &&
        Contents == old(Contents) && log.records == old(log.records) + [InsertedEmpty(producer)]
      ensures item != "" ==>
        slots[..] == old(slots[..])[old(rear) := item] &&
        rear == (old(rear) + 1) % capacity && size == old(size) + 1 &&
        log.records == old(log.records) + [Inserted(producer, item)]
      ensures old(Valid()) && old(size) < capacity ==>
        Valid() && Contents == old(Contents) + (if item == "" then [] else [item])
      ensures old(Valid()) && old(size) == capacity && item != "" ==>
        !Valid() && size == capacity + 1 &&
        RingView(slots[..], front, capacity) == [item] + old(Contents)[1..]
    {
      if item == "" {
        log.Write(InsertedEmpty(producer));
        return;
      }
      ghost var wasValid, before, oldSize := Valid(), slots[..], size;
      slots[rear] := item;
      rear := (rear + 1) % capacity;
      size := size + 1;
      ModAdd(front + oldSize, 1, capacity);
      log.Write(Inserted(producer, item));
      if oldSize < capacity {
        Contents := Contents + [item];
        if wasValid {
          PutIntoView(before, front, oldSize, old(rear), old(Contents), item);
        }
      } else if wasValid {
        PutIntoFullView(before, front, old(rear), old(Contents), item);
      }
    }

    /** Takes the item at `front`; on an empty, finished buffer returns ""
        and changes nothing. */
    method Eliminar(log: Log, consumer: int) returns (item: string)
      requires WellFormed()
      requires size > 0 || finished
      modifies this, log
      ensures WellFormed() && finished == old(finished) && rear == old(rear)
      ensures old(size) == 0 ==>
        item == "" && front == old(front) && size == 0 && Contents == old(Contents) &&
        log.records == old(log.records)
      ensures old(size) > 0 ==>
        item == old(slots[front]) && front == (old(front) + 1) % capacity &&
        size == old(size) - 1 &&
        log.records == old(log.records) + [Consumed(consumer, item)]
      ensures old(Valid()) ==> Valid() && (item == "" <==> old(size) == 0 && finished)
      ensures old(Valid()) && old(size) > 0 ==>
        item == old(Contents)[0] && Contents == old(Contents)[1..]
    {
      if size == 0 && finished {
        return "";
      }
      ghost var wasValid := Valid();
      item := slots[front];
      front := (front + 1) % capacity;
      size := size - 1;
      ModWindow(old(front) + 1, capacity);
      ModAdd(old(front) + 1, size, capacity);
      assert rear == (front + size) % capacity;
      log.Write(Consumed(consumer, item));
      if wasValid {
        TakeFromView(slots[..], old(front), old(size), Contents);
        Contents := Contents[1..];
      }
    }

    /** Marks the producers as done; the slots and indices stay as they are,
        so a second call changes nothing. */
    method SetFinished()
      modifies this`finished
      ensures finished
      ensures front == old(front) && rear == old(rear) && size == old(size) && Contents == old(Contents)
      ensures old(WellFormed()) ==> WellFormed()
      ensures old(Valid()) ==> Valid()
    {
      finished := true;
    }
  }
}
