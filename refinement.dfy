// The circular buffer of system.cpp implements the bounded FIFO of
// presentar.cpp: run side by side on the same operations, they hand out the
// same items, and those are the inserted items in insertion order.
module Refinement {
  import opened Items
  import opened EventLog
  import RingBuffer
  import Fifo

  /** One buffer operation: an insert of an item, or a remove. */
  datatype Op = Put(item: string) | Take

  /** No operation has to wait, and every inserted item is non-empty (as the
      producers' items are): each Put finds room and each Take finds an item,
      starting from `count` stored items. */
  predicate Admissible(ops: seq<Op>, count: nat, cap: int)
    decreases |ops|
  {
    if ops == [] then true
    else match ops[0]
      case Put(x) => x != "" && count < cap && Admissible(ops[1..], count + 1, cap)
      case Take => count > 0 && Admissible(ops[1..], count - 1, cap)
  }

  /** The inserted items, in order. */
  function Puts(ops: seq<Op>): seq<string>
    decreases |ops|
  {
    if ops == [] then [] else (if ops[0].Put? then [ops[0].item] else []) + Puts(ops[1..])
  }

  /** The number of removes. */
  function Takes(ops: seq<Op>): nat
    decreases |ops|
  {
    if ops == [] then 0 else (if ops[0].Take? then 1 else 0) + Takes(ops[1..])
  }

  /** The items the removes return, run against a FIFO queue holding `q`. */
  function Replay(ops: seq<Op>, q: seq<string>): seq<string>
    decreases |ops|
  {
    if ops == [] then []
    else match ops[0]
      case Put(x) => Replay(ops[1..], q + [x])
      case Take => if q == [] then Replay(ops[1..], q) else [q[0]] + Replay(ops[1..], q[1..])
  }

  lemma ConsPrefix(x: string, s: seq<string>, t: nat)
    requires t <= |s|
    ensures ([x] + s)[..t + 1] == [x] + s[..t]
  {
  }

  lemma ConsSplit(q: seq<string>, p: seq<string>)
    requires q != []
    ensures q + p == [q[0]] + (q[1..] + p)
  {
  }

  lemma AppendAssoc(q: seq<string>, x: string, p: seq<string>)
    ensures q + [x] + p == q + ([x] + p)
  {
  }

  /** FIFO delivery: nothing is lost, duplicated or reordered. The removes
      return the stored items followed by the inserted ones, in order, as
      many as there were removes. */
  lemma {:induction false} ReplayIsFifo(ops: seq<Op>, q: seq<string>, cap: int)
    requires Admissible(ops, |q|, cap)
    ensures Takes(ops) <= |q| + |Puts(ops)|
    ensures Replay(ops, q) == (q + Puts(ops))[..Takes(ops)]
    decreases |ops|
  {
    if ops != [] {
      var rest := ops[1..];
      match ops[0]
      case Put(x) =>
        assert Puts(ops) == [x] + Puts(rest) && Takes(ops) == Takes(rest);
        ReplayIsFifo(rest, q + [x], cap);
        AppendAssoc(q, x, Puts(rest));
      case Take =>
        assert Puts(ops) == Puts(rest) && Takes(ops) == Takes(rest) + 1;
        ReplayIsFifo(rest, q[1..], cap);
        ConsSplit(q, Puts(rest));
        ConsPrefix(q[0], q[1..] + Puts(rest), Takes(rest));
    }
  }

  /** Replaying from an insert: it needs room and a non-empty item, and
      queues the item. */
  lemma PutStep(ops: seq<Op>, i: nat, out: seq<string>, q: seq<string>, cap: int)
    requires i < |ops| && ops[i].Put? && Admissible(ops[i..], |q|, cap)
    ensures ops[i].item != "" && |q| < cap && Admissible(ops[i + 1..], |q| + 1, cap)
    ensures out + Replay(ops[i..], q) == out + Replay(ops[i + 1..], q + [ops[i].item])
  {
    assert ops[i..][1..] == ops[i + 1..];
  }

  /** Replaying from a remove: it needs a stored item, and returns the
      oldest one. */
  lemma TakeStep(ops: seq<Op>, i: nat, out: seq<string>, q: seq<string>, cap: int)
    requires i < |ops| && ops[i].Take? && Admissible(ops[i..], |q|, cap)
    ensures q != [] && Admissible(ops[i + 1..], |q| - 1, cap)
    ensures out + Replay(ops[i..], q) == out + [q[0]] + Replay(ops[i + 1..], q[1..])
  {
    assert ops[i..][1..] == ops[i + 1..];
  }

  /** Runs the same operations on the circular buffer of system.cpp and on
      the queue of presentar.cpp, collecting what each remove returns: both
      return the same items, and those are the inserted items in order. */
  method RunBoth(cap: int, ops: seq<Op>) returns (ringOut: seq<string>, queueOut: seq<string>)
    requires cap >= 1 && Admissible(ops, 0, cap)
    ensures ringOut == queueOut
    ensures Takes(ops) <= |Puts(ops)|
    ensures ringOut == Puts(ops)[..Takes(ops)]
  {
    var ring := new RingBuffer.Buffer(cap);
    var queue := new Fifo.Buffer(cap);
    var log := new Log();
    ringOut, queueOut := [], [];
    var i := 0;
    while i < |ops|
      invariant 0 <= i <= |ops|
      invariant fresh(ring.slots)
      invariant ring.Valid() && !ring.finished && ring.capacity == cap && queue.capacity == cap
      invariant ring.Contents == queue.queue && ring.size == |queue.queue|
      invariant Admissible(ops[i..], |queue.queue|, cap)
      invariant ringOut == queueOut
      invariant queueOut + Replay(ops[i..], queue.queue) == Replay(ops, [])
    {
      match ops[i] {
        case Put(x) =>
          PutStep(ops, i, queueOut, queue.queue, cap);
          ring.Insertar(x, log, 1);
          queue.Insertar(x);
        case Take =>
          TakeStep(ops, i, queueOut, queue.queue, cap);
          var a := ring.Eliminar(log, 1);
          var b := queue.Eliminar();
          ringOut, queueOut := ringOut + [a], queueOut + [b];
      }
      i := i + 1;
    }
    assert ops[i..] == [];
    ReplayIsFifo(ops, [], cap);
    assert [] + Puts(ops) == Puts(ops);
  }

  /** Capacity 1, one producer with three items and one consumer taking
      turns: the items come out as Item_1_1, Item_1_2, Item_1_3. */
  method CapacityOneRun() returns (taken: seq<string>)
    ensures taken == ProducedItems(1, 3)
  {
    var ops := [Put(ItemName(1, 1)), Take, Put(ItemName(1, 2)), Take, Put(ItemName(1, 3)), Take];
    var queueOut;
    taken, queueOut := RunBoth(1, ops);
    assert Puts(ops) == [ItemName(1, 1), ItemName(1, 2), ItemName(1, 3)];
  }

  /** The wait in Buffer.Insertar (system.cpp:40) also returns when the
      buffer is finished, even if it is full: on a finished buffer of
      capacity 1 holding Item_1_1, inserting Item_1_2 overwrites it and counts
      two items; the two removes then both return Item_1_2, and Item_1_1 is
      never delivered. */
  method FinishedWhileFull() returns (first: string, second: string, count: int)
    ensures count == 2
    ensures first == ItemName(1, 2) && second == ItemName(1, 2)
  {
    var ring := new RingBuffer.Buffer(1);
    var producerLog := new Log();
    var consumerLog := new Log();
    ring.Insertar(ItemName(1, 1), producerLog, 1);
    ring.SetFinished();
    ring.Insertar(ItemName(1, 2), producerLog, 1);
    count := ring.size;
    first := ring.Eliminar(consumerLog, 1);
    second := ring.Eliminar(consumerLog, 1);
  }
}
