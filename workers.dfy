// The producer and consumer loops of system.cpp (Productor::producir and
// Consumidor::consumir), run against one buffer without other threads in
// between. The process-wide interrupt flag is an input: `signalAt` is the
// first loop round in which the flag is seen set (the flag is only ever set,
// never cleared, so every later round sees it too).
module Workers {
  import opened Items
  import opened EventLog
  import opened RingBuffer

  function Min(a: int, b: int): int { if a <= b then a else b }

  /** How many rounds of `for (i = 1; i <= numItems; ++i)` run before the
      interrupt flag stops the loop. */
  function Rounds(numItems: int, signalAt: int): (r: nat)
    ensures r <= numItems || r == 0
    ensures r < signalAt || r == 0
  {
    if numItems <= 0 || signalAt <= 1 then 0 else Min(numItems, signalAt - 1)
  }

  /** The insert records of producer `id` for its first `n` items. */
  function InsertEvents(id: int, n: nat): (es: seq<Event>)
    ensures |es| == n
  {
    seq(n, k requires 0 <= k < n => Inserted(id, ItemName(id, k + 1)))
  }

  /** One more round extends the insert records by one at the back. */
  lemma InsertStep(log: seq<Event>, id: int, n: nat)
    ensures log + InsertEvents(id, n) + [Inserted(id, ItemName(id, n + 1))] == log + InsertEvents(id, n + 1)
  {
    assert InsertEvents(id, n + 1) == InsertEvents(id, n) + [Inserted(id, ItemName(id, n + 1))];
  }

  /** One more round extends the produced items by one at the back. */
  lemma ProduceStep(start: seq<string>, id: int, n: nat)
    ensures start + ProducedItems(id, n) + [ItemName(id, n + 1)] == start + ProducedItems(id, n + 1)
  {
    ProducedItemsSnoc(id, n);
  }

  /** The consume records of consumer `id` for the items it took. */
  function ConsumeEvents(id: int, items: seq<string>): (es: seq<Event>)
    ensures |es| == |items|
  {
    seq(|items|, k requires 0 <= k < |items| => Consumed(id, items[k]))
  }

  /** One more item taken extends the consume records by one at the back. */
  lemma ConsumeStep(log: seq<Event>, id: int, taken: seq<string>, item: string)
    ensures log + ConsumeEvents(id, taken) + [Consumed(id, item)] == log + ConsumeEvents(id, taken + [item])
  {
    assert ConsumeEvents(id, taken + [item]) == ConsumeEvents(id, taken) + [Consumed(id, item)];
  }

  /** Moving the front item of `rest` to the back of `taken` keeps their
      concatenation. */
  lemma MoveFront(items: seq<string>, taken: seq<string>, rest: seq<string>)
    requires items == taken + rest && rest != []
    ensures items == (taken + [rest[0]]) + rest[1..]
  {
    assert rest == [rest[0]] + rest[1..];
  }

  /** The records a consumer writes when it runs `rounds` rounds against a
      buffer holding `items`: it takes items while there are any, and if it
      runs out before its rounds are done it records one empty-item error. */
  function ConsumerRun(id: int, items: seq<string>, rounds: nat): (es: seq<Event>)
    ensures |es| == Min(rounds, |items|) + (if rounds > |items| then 3 else 2)
    ensures (ReceivedEmpty(id) in es) <==> rounds > |items|
  {
    var taken := Min(rounds, |items|);
    [ConsumerCreated(id)] + ConsumeEvents(id, items[..taken]) +
    (if taken < rounds then [ReceivedEmpty(id)] else []) + [ConsumerDone(id)]
  }

  /** How a consumer's run ends: after `rounds` rounds, or earlier, once it
      has taken every item and received the empty one. Either way the records
      it wrote are ConsumerRun's and the buffer keeps what it did not take. */
  lemma ConsumerRunEnd(log: seq<Event>, id: int, items: seq<string>, rounds: nat,
                       taken: seq<string>, rest: seq<string>, drained: bool)
    requires items == taken + rest && |taken| <= rounds
    requires if drained then rest == [] && |taken| < rounds else |taken| == rounds
    ensures rest == items[Min(rounds, |items|)..]
    ensures log + [ConsumerCreated(id)] + ConsumeEvents(id, taken) +
            (if drained then [ReceivedEmpty(id)] else []) + [ConsumerDone(id)]
         == log + ConsumerRun(id, items, rounds)
  {
    assert items[..Min(rounds, |items|)] == taken;
  }

  /** A producer run: logs its creation, inserts Item_<id>_1, Item_<id>_2, ...
      one per round, and logs its end. The buffer must have room for every
      item (the wait in Buffer.Insertar would otherwise need a consumer), or
      be finished. */
  method Producir(buffer: Buffer, id: int, numItems: int, signalAt: int, log: Log)
    requires buffer.WellFormed()
    requires buffer.finished || (buffer.Valid() && buffer.size + Rounds(numItems, signalAt) <= buffer.capacity)
    modifies buffer, buffer.slots, log
    ensures buffer.WellFormed() && buffer.finished == old(buffer.finished)
    ensures buffer.front == old(buffer.front)
    ensures buffer.size == old(buffer.size) + Rounds(numItems, signalAt)
    ensures log.records == old(log.records) +
      [ProducerCreated(id)] + InsertEvents(id, Rounds(numItems, signalAt)) + [ProducerDone(id)]
    ensures old(buffer.Valid()) && old(buffer.size) + Rounds(numItems, signalAt) <= buffer.capacity ==>
      buffer.Valid() && buffer.Contents == old(buffer.Contents) + ProducedItems(id, Rounds(numItems, signalAt))
  {
    ghost var rounds := Rounds(numItems, signalAt);
    ghost var roomy := buffer.Valid() && buffer.size + rounds <= buffer.capacity;
    ghost var start, records := buffer.Contents, log.records + [ProducerCreated(id)];
    log.Write(ProducerCreated(id));
    var i := 1;
    while i <= numItems
      invariant 1 <= i <= rounds + 1
      invariant buffer.WellFormed() && buffer.finished == old(buffer.finished)
      invariant buffer.front == old(buffer.front)
      invariant buffer.size == old(buffer.size) + (i - 1)
      invariant log.records == records + InsertEvents(id, i - 1)
      invariant roomy ==> old(buffer.size) + rounds <= buffer.capacity
      invariant roomy ==> buffer.Valid() && buffer.Contents == start + ProducedItems(id, i - 1)
    {
      if i >= signalAt {
        break;
      }
      // ItemName never yields "", so the empty-item check of the source
      // (system.cpp:112-116) never fires and is left out here.
      assert i <= rounds;
      var item := ItemName(id, i);
      buffer.Insertar(item, log, id);
      InsertStep(records, id, i - 1);
      ProduceStep(start, id, i - 1);
      i := i + 1;
    }
    assert i - 1 == rounds;
    log.Write(ProducerDone(id));
  }

  /** A consumer run: logs its creation, takes one item per round, stops at
      the first "" (an empty, finished buffer) after logging it as an error,
      and logs its end. The buffer must hold an item for every round, or be
      finished. */
  method Consumir(buffer: Buffer, id: int, numItems: int, signalAt: int, log: Log)
    requires buffer.Valid()
    requires buffer.finished || buffer.size >= Rounds(numItems, signalAt)
    modifies buffer, log
    ensures buffer.Valid() && buffer.finished == old(buffer.finished)
    ensures buffer.Contents == old(buffer.Contents)[Min(Rounds(numItems, signalAt), old(buffer.size))..]
    ensures log.records == old(log.records) + ConsumerRun(id, old(buffer.Contents), Rounds(numItems, signalAt))
  {
    ghost var rounds := Rounds(numItems, signalAt);
    ghost var initial, before := buffer.Contents, log.records;
    log.Write(ConsumerCreated(id));
    var i := 1;
    ghost var taken, rest, drained := [], initial, false;
    while i <= numItems
      invariant 1 <= i <= rounds + 1 && |taken| == i - 1
      invariant initial == taken + rest
      invariant buffer.Valid() && buffer.finished == old(buffer.finished)
      invariant buffer.Contents == rest && buffer.size == |rest|
      invariant log.records == before + [ConsumerCreated(id)] + ConsumeEvents(id, taken)
      invariant !drained
    {
      if i >= signalAt {
        break;
      }
      var item := buffer.Eliminar(log, id);
      if item == "" {
        log.Write(ReceivedEmpty(id));
        drained := true;
        break;
      }
      ConsumeStep(before + [ConsumerCreated(id)], id, taken, item);
      MoveFront(initial, taken, rest);
      taken, rest := taken + [item], rest[1..];
      i := i + 1;
    }
    ghost var tail := if drained then [ReceivedEmpty(id)] else [];
    assert log.records == before + [ConsumerCreated(id)] + ConsumeEvents(id, taken) + tail;
    log.Write(ConsumerDone(id));
    ConsumerRunEnd(before, id, initial, rounds, taken, rest, drained);
  }
}
