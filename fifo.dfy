// The earlier buffer of presentar.cpp: a std::queue of items bounded by a
// capacity, with a blocking insert and remove. It is the abstract FIFO that
// the circular buffer of system.cpp is shown to implement. The mutex and the
// condition variables are not modelled; each wait becomes the condition under
// which it returns. The console echo of each operation is not modelled.
module Fifo {
  import opened Items

  class Buffer {
    const capacity: int
    var queue: seq<string>

    /** The queue never holds more than `capacity` items. */
    ghost predicate Valid()
      reads this
    {
      queue == [] || |queue| <= capacity
    }

    constructor (cap: int)
      ensures Valid() && capacity == cap && queue == []
    {
      capacity := cap;
      queue := [];
    }

    /** Waits until the queue is below capacity, then pushes at the back. */
    method Insertar(item: string)
      requires |queue| < capacity
      modifies this
      ensures Valid()
      ensures queue == old(queue) + [item]
    {
      queue := queue + [item];
    }

    /** Waits until the queue is non-empty, then pops and returns the front. */
    method Eliminar() returns (item: string)
      requires |queue| > 0
      modifies this
      ensures old(Valid()) ==> Valid()
      ensures item == old(queue)[0] && queue == old(queue)[1..]
    {
      item := queue[0];
      queue := queue[1..];
    }
  }

  function Count(numItems: int): nat { if numItems <= 0 then 0 else numItems }

  /** productor: inserts Item_<id>_1 .. Item_<id>_<numItems> in order. The
      queue must have room for all of them (no consumer runs in between). */
  method Productor(buffer: Buffer, id: int, numItems: int)
    requires |buffer.queue| + Count(numItems) <= buffer.capacity
    modifies buffer
    ensures buffer.Valid()
    ensures buffer.queue == old(buffer.queue) + ProducedItems(id, Count(numItems))
  {
    var i := 1;
    while i <= numItems
      invariant 1 <= i <= Count(numItems) + 1
      invariant buffer.queue == old(buffer.queue) + ProducedItems(id, i - 1)
    {
      var item := ItemName(id, i);
      buffer.Insertar(item);
      ProducedItemsSnoc(id, i - 1);
      i := i + 1;
    }
  }

  /** consumidor: removes numItems items from the front, discarding them. */
  method Consumidor(buffer: Buffer, numItems: int)
    requires |buffer.queue| >= Count(numItems)
    modifies buffer
    ensures old(buffer.Valid()) ==> buffer.Valid()
    ensures buffer.queue == old(buffer.queue)[Count(numItems)..]
  {
    var i := 1;
    while i <= numItems
      invariant 1 <= i <= Count(numItems) + 1
      invariant buffer.queue == old(buffer.queue)[i - 1..]
      invariant old(buffer.Valid()) ==> buffer.Valid()
    {
      var _ := buffer.Eliminar();
      i := i + 1;
    }
  }
}
