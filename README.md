# Producer–consumer circular buffer

This project models the producer–consumer program of `system.cpp` and the
bounded queue of `presentar.cpp`, and proves properties of both.

In `system.cpp`, a fixed array of item strings is shared by producers and
consumers through three indices that move modulo the capacity: `front`, `rear`
and `buffer_size`. A `finished` flag is set once the producers are done.
Producers insert the items `Item_<id>_<i>`, and consumers take them out. Every
action is written to a log file.

`presentar.cpp` holds an earlier version of the same buffer, built on a
bounded `std::queue`. The model uses it as the reference FIFO and proves that
the circular buffer behaves like it.

Modules, one per file:

- `Items` (`items.dfy`): the decimal rendering of an `int` (what
  `std::to_string` produces) with its parser, the item names
  `Item_<id>_<i>`, and the sequence of items one producer makes.
- `EventLog` (`event_log.dfy`): the events written to the producer and
  consumer logs, and the exact text of each line. A `Log` class is an
  append-only file holding those events.
- `RingBuffer` (`ring_buffer.dfy`): the circular buffer of `system.cpp` as a
  class over an `array<string>`. The fields `front`, `rear`, `size` and
  `finished` are updated in place. A ghost sequence `Contents` is the queue
  the slots stand for, oldest item first, and `RingView` computes it from the
  slots.
- `Workers` (`workers.dfy`): the loops of `Productor::producir` and
  `Consumidor::consumir`, as methods with `while` loops run against the
  buffer and a log.
- `Fifo` (`fifo.dfy`): the `Buffer` of `presentar.cpp` as a class over a
  `seq<string>`, plus its `productor` and `consumidor` loops.
- `Refinement` (`refinement.dfy`): a run of inserts and removes with no
  waiting, a FIFO reference definition of what the removes return, and a
  method that drives both buffers through the same run and proves they agree.

Each blocking wait becomes the condition under which it returns:

- `insertar` may proceed once `buffer_size < capacity || finished` (system.cpp:40);
- `eliminar` may proceed once `buffer_size > 0 || finished` (system.cpp:63).

Two invariants describe the circular buffer:

- `WellFormed` is kept by every operation. The indices stay inside the array,
  and `rear` is always `buffer_size` slots past `front`.
- `Valid` adds three things: at most `capacity` items are stored, none of them
  is empty, and `Contents` is what the live slots hold.

Behaviour followed as the code has it:

- Once `finished` is set, the wait in `insertar` no longer checks for room.
  An insert into a full, finished buffer overwrites the oldest item and
  raises `buffer_size` to `capacity + 1`. A finished buffer was evidently
  meant to take no more items, but the code still takes them. The model
  follows the code: `Buffer.Insertar` states the overwrite, and
  `FinishedWhileFull` runs a case where an item is lost. The program itself
  never reaches this case, because it calls `setFinished` only after every
  producer has returned (system.cpp:201-202).
- The empty-item check in `insertar` comes after the wait, so an empty item
  also waits for room before it is rejected.
- `eliminar` returns `""` exactly when the buffer is empty and finished.
  Because no empty item is ever stored, a consumer that receives `""` knows
  the buffer has been drained.

## Model

| member | source | states |
|---|---|---|
| Items.ParseIntToString | system.cpp:109 | reading back the decimal rendering of any int gives the int: the rendering loses nothing |
| Items.ItemName | system.cpp:109-116 | an item name starts with `Item_` and is never empty, so the producer's empty-item check at :112 can never fire |
| Items.ItemNameInjective | system.cpp:109 | two item names are equal only when both the producer id and the round number are equal |
| Items.ProducedItemsWellFormed | system.cpp:104-118 | a producer's items contain no empty string, and no item appears twice |
| Items.ProducersDisjoint | system.cpp:109 | no item of one producer equals any item of another producer |
| EventLog.Line | system.cpp:44-160 | the text of each log line; a line starts with `Error: ` exactly when it records an empty item (:44, :114, :153) |
| EventLog.LinesSnoc | system.cpp:52-55 | writing one event appends exactly its line to the log text and leaves earlier lines unchanged |
| EventLog.Log.Write | system.cpp:52-55 | the log gains the written event at its end and nothing else |
| RingBuffer.RingViewAt | system.cpp:48-69 | the k-th stored item is the slot `(front + k) % capacity`, the one `eliminar` reaches after k removes |
| RingBuffer.ViewAfterWrite | system.cpp:48-50 | writing at `(front + size) % capacity` and counting one more appends the item to the stored items |
| RingBuffer.ViewAfterTake | system.cpp:68-70 | the slot at `front` holds the oldest item; advancing `front` and counting one less removes exactly that item |
| RingBuffer.PutIntoView | system.cpp:42-50 | inserting a non-empty item into a buffer with room appends it, and still no stored item is empty |
| RingBuffer.PutIntoFullView | system.cpp:40-50 | on a full buffer the write position is `front` itself, so the new item overwrites the oldest one |
| RingBuffer.TakeFromView | system.cpp:65-70 | the item taken is the oldest one and is not empty; the items left are the rest, in order |
| RingBuffer.Buffer.constructor | system.cpp:33-35 | the new buffer is empty and valid: `front == rear == buffer_size == 0`, not finished, `capacity` empty slots |
| RingBuffer.Buffer.Insertar | system.cpp:37-58 | an empty item is only logged as an error; otherwise the item is written at `rear`, and `rear` and `buffer_size` advance; with room, the item is appended and `Valid` is kept; on a full, finished buffer the oldest item is overwritten and `Valid` breaks |
| RingBuffer.Buffer.Eliminar | system.cpp:60-80 | an empty, finished buffer returns `""` and changes nothing; otherwise the front item is returned and logged, and `front` advances; on a valid buffer the result is `""` exactly when the buffer is empty and finished, and otherwise it is the oldest item, which is removed |
| RingBuffer.Buffer.SetFinished | system.cpp:82-86 | `finished` becomes true; the indices and contents are unchanged, so a second call does nothing more |
| Workers.Rounds | system.cpp:104-105 | the loop runs at most `num_items` rounds and stops before the round in which the interrupt flag is seen |
| Workers.ConsumerRun | system.cpp:137-162 | a consumer's log holds one error line exactly when it ran out of items before its rounds were done |
| Workers.ConsumerRunEnd | system.cpp:143-161 | whether the loop ends by count, by interrupt or on `""`, the consumer has logged `ConsumerRun` and the buffer keeps exactly the items it did not take |
| Workers.Producir | system.cpp:98-125 | the producer logs its creation, inserts `Item_<id>_1 ..` one per round until the count or the interrupt stops it, then logs its end; a buffer with room gains exactly those items in order |
| Workers.Consumir | system.cpp:137-162 | the consumer takes the oldest items one per round and stops at the first `""`; the buffer loses exactly the items taken, and the log is `ConsumerRun` |
| Fifo.Buffer.constructor | presentar.cpp:19 | a new queue is empty |
| Fifo.Buffer.Insertar | presentar.cpp:22-29 | below capacity, the item is pushed at the back and the bound is kept |
| Fifo.Buffer.Eliminar | presentar.cpp:32-41 | on a non-empty queue, the front item is returned and removed |
| Fifo.Productor | presentar.cpp:45-51 | the queue gains `Item_<id>_1 .. Item_<id>_<num_items>`, in that order |
| Fifo.Consumidor | presentar.cpp:54-59 | the queue loses exactly its `num_items` oldest items |
| Refinement.PutStep | presentar.cpp:22-29 | an insert that needs no wait finds room, and queues its item at the back |
| Refinement.TakeStep | presentar.cpp:32-41 | a remove that needs no wait finds an item, and returns the oldest one |
| Refinement.ReplayIsFifo | presentar.cpp:22-41 | a FIFO queue returns the items it held and then the inserted ones, in order, one per remove: nothing is lost, duplicated or reordered |
| Refinement.RunBoth | system.cpp:37-80 | run on the same inserts and removes, the circular buffer and the queue return the same items, and those are the inserted items in insertion order |
| Refinement.CapacityOneRun | system.cpp:37-80 | with capacity 1, alternating inserts and removes deliver `Item_1_1`, `Item_1_2`, `Item_1_3` |
| Refinement.FinishedWhileFull | system.cpp:40-50 | on a finished buffer of capacity 1 that already holds `Item_1_1`, inserting `Item_1_2` counts 2 items, and both removes return `Item_1_2`: `Item_1_1` is lost |

## Left out

- Threads, `std::mutex`, `std::condition_variable` and the `notify` calls are not modelled. Each wait is the precondition of its operation. Interleavings are covered only as far as a sequence of inserts and removes can express them (`Refinement.RunBoth`).
- The SIGINT handler and the `std::atomic<bool>` flag are modelled only by the input `signalAt`: the first loop round in which the flag is seen set. The flag is never cleared, so every later round also sees it.
- `sleep_for(rand() % ...)`: timing and randomness do not change any result.
- Opening, closing and stream errors of the log files are not modelled. The `log_mtx` lock is not modelled either. A log is the sequence of events written to it, and `EventLog.Line` gives each event's text.
- The console echo in `presentar.cpp` (`Insertado:` / `Consumido:`) and the SIGINT message are not modelled.
- `main` and its argument parsing with `std::stoi`, and `Principal::iniciar`, which spawns and joins the threads, are not modelled. That includes the order "join producers, then `setFinished`, then join consumers".
- `int` overflow is not modelled: integers are unbounded, so `++i` never wraps at `INT_MAX`.
- RingBuffer.Buffer.constructor: requires `capacity >= 1`. The code does not check this, but with capacity 0 `% capacity` is undefined behaviour.
- Workers.Producir: it runs with no other thread, so it requires room for all its rounds, or a finished buffer. A wait that only a concurrent consumer could end is not modelled.
- Workers.Producir: the empty-item branch of the loop (system.cpp:112-116) is not in the method's body, because `Items.ItemName` proves it can never be taken.
- Workers.Consumir: it runs with no other thread, so it requires an item for each of its rounds, or a finished buffer.
- Fifo.Productor: no interrupt flag exists in `presentar.cpp`. With no consumer running, the method requires room for all its items.
- Fifo.Consumidor: with no producer running, it requires an item for each round.
- Refinement.RunBoth: holds only for runs whose inserted items are non-empty. The queue of `presentar.cpp` stores `""`, while the circular buffer logs `""` as an error and drops it.
