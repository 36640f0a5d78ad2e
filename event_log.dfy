// The producer and consumer log files: each write appends one whole line
// (the line is written under the log mutex and ended with std::endl).
module EventLog {
  import Items

  /** The events the buffer and the workers record; `actor` is the id of the
      producer or consumer that records it. */
  datatype Event =
    | ProducerCreated(actor: int)
    | ProducerMadeEmpty(actor: int)
    | Inserted(actor: int, item: string)
    | InsertedEmpty(actor: int)
    | ProducerDone(actor: int)
    | ConsumerCreated(actor: int)
    | Consumed(actor: int, item: string)
    | ReceivedEmpty(actor: int)
    | ConsumerDone(actor: int)
  {
    predicate IsError() {
      ProducerMadeEmpty? || InsertedEmpty? || ReceivedEmpty?
    }

    predicate ByProducer() {
      ProducerCreated? || ProducerMadeEmpty? || Inserted? || InsertedEmpty? || ProducerDone?
    }
  }

  const ErrorTag := "Error: "

  function Actor(e: Event): (s: string)
    ensures |s| > 0 && s[0] != 'E'
  {
    if e.ByProducer() then "Productor " else "Consumidor "
  }

  function Phrase(e: Event): string
  {
    match e
    case ProducerCreated(_) => " creado."
    case ProducerMadeEmpty(_) => " generó un ítem vacío."
    case Inserted(_, item) => " insertó: " + item
    case InsertedEmpty(_) => " intentó insertar un ítem vacío."
    case ProducerDone(_) => " terminó."
    case ConsumerCreated(_) => " creado."
    case Consumed(_, item) => " consumió: " + item
    case ReceivedEmpty(_) => " recibió un ítem vacío."
    case ConsumerDone(_) => " terminó."
  }

  /** The text of the line an event writes (without the line terminator):
      error lines, and only they, start with "Error: ". */
  function Line(e: Event): (line: string)
    ensures e.IsError() <==> |line| >= |ErrorTag| && line[..|ErrorTag|] == ErrorTag
  {
    var body := Actor(e) + Items.IntToString(e.actor) + Phrase(e);
    assert body[0] == Actor(e)[0];
    if e.IsError() then ErrorTag + body else body
  }

  /** The text of a sequence of events, one line each, in order. */
  function Lines(es: seq<Event>): (lines: seq<string>)
    ensures |lines| == |es|
  {
    seq(|es|, k requires 0 <= k < |es| => Line(es[k]))
  }

  /** Recording one more event adds exactly its line at the end of the text,
      and leaves the earlier lines as they were. */
  lemma LinesSnoc(es: seq<Event>, e: Event)
    ensures Lines(es + [e]) == Lines(es) + [Line(e)]
  {
    assert (es + [e])[|es|] == e;
  }

  /** An append-only log file. Each write appends the line of one event; the
      file's text is Lines(records). */
  class Log {
    var records: seq<Event>

    constructor ()
      ensures records == []
    {
      records := [];
    }

    ghost function Text(): seq<string>
      reads this
    {
      Lines(records)
    }

    method Write(e: Event)
      modifies this
      ensures records == old(records) + [e]
    {
      records := records + [e];
    }
  }
}
