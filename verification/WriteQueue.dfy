/** Serialised asynchronous writes: one buffer at a time is handed to the socket, the others wait in a queue. */
module WriteQueue {
  import opened ByteCodec

  datatype Entry<+C> = Entry(msg: Bytes, callback: C)

  /**
   * `inFlight` is the buffer of the outstanding `async_write`; the socket takes its bytes a few at a
   * time and has taken `sent` of them.
   */
  datatype Writer<+C> = Writer(queue: seq<Entry<C>>, inFlight: Option<Bytes>, sent: nat)

  function EmptyWriter<C>(): Writer<C> {
    Writer([], None, 0)
  }

  /** `trigger_write` */
  function Trigger<C>(w: Writer<C>, msg: Bytes, callback: C): Writer<C> {
    var queue := w.queue + [Entry(msg, callback)];
    if w.queue == [] then Writer(queue, Some(queue[0].msg), 0) else w.(queue := queue)
  }

  /** The socket accepts `k` more bytes of the outstanding write. */
  function Transmit<C>(w: Writer<C>, k: nat): Writer<C> {
    w.(sent := w.sent + k)
  }

  predicate CanComplete<C>(w: Writer<C>) {
    w.inFlight.Some? && w.sent == |w.inFlight.value|
  }

  /** `checked_write` without its last act, the call of the finished entry's callback. */
  function Written<C>(w: Writer<C>): Writer<C>
    requires w.queue != []
  {
    var queue := w.queue[1..];
    if queue != [] then Writer(queue, Some(queue[0].msg), 0) else Writer(queue, None, 0)
  }

  function Messages<C>(es: seq<Entry<C>>): (r: Bytes)
    ensures es != [] ==> |es[0].msg| <= |r|
  {
    if es == [] then [] else es[0].msg + Messages(es[1..])
  }

  function Callbacks<C>(es: seq<Entry<C>>): seq<C> {
    if es == [] then [] else [es[0].callback] + Callbacks(es[1..])
  }

  /** A write is outstanding exactly when the queue is non-empty, and it is the head of the queue. */
  ghost predicate OneInFlight<C>(w: Writer<C>) {
    && w.inFlight == (if w.queue == [] then None else Some(w.queue[0].msg))
    && w.sent <= (if w.queue == [] then 0 else |w.queue[0].msg|)
  }

  /** The queued bytes the socket has not taken yet. */
  ghost function Unsent<C>(w: Writer<C>): Bytes
    requires OneInFlight(w)
  {
    Messages(w.queue)[w.sent..]
  }

  class AsyncTcpIp<C> {
    var writeQueue: seq<Entry<C>>
    var inFlight: Option<Bytes>
    var sent: nat

    ghost function View(): Writer<C>
      reads this
    {
      Writer(writeQueue, inFlight, sent)
    }

    constructor ()
      ensures View() == EmptyWriter()
    {
      writeQueue := [];
      inFlight := None;
      sent := 0;
    }

    method AsyncWrite(buffer: Bytes)
      modifies this`inFlight, this`sent
      ensures inFlight == Some(buffer) && sent == 0
    {
      inFlight := Some(buffer);
      sent := 0;
    }

    method TriggerWrite(msg: Bytes, callback: C)
      modifies this
      ensures View() == Trigger(old(View()), msg, callback)
    {
      var writeInProgress := writeQueue != [];
      writeQueue := writeQueue + [Entry(msg, callback)];
      if !writeInProgress {
        AsyncWrite(writeQueue[0].msg);
      }
    }

    /** The completion handler; the caller runs the returned callback last, as the source does. */
    method CheckedWrite() returns (callback: C)
      requires OneInFlight(View()) && CanComplete(View())
      modifies this
      ensures View() == Written(old(View())) && callback == old(writeQueue)[0].callback
      ensures OneInFlight(View())
    {
      callback := writeQueue[0].callback;
      writeQueue := writeQueue[1..];
      inFlight, sent := None, 0;
      if writeQueue != [] {
        AsyncWrite(writeQueue[0].msg);
      }
    }
  }

  // ---------- What each step does to the bytes still to be sent ----------

  lemma {:induction false} MessagesAppend<C>(es: seq<Entry<C>>, e: Entry<C>)
    ensures Messages(es + [e]) == Messages(es) + e.msg
  {
    if es != [] {
      MessagesAppend(es[1..], e);
      assert (es + [e])[1..] == es[1..] + [e];
    }
  }

  lemma {:induction false} CallbacksAppend<C>(es: seq<Entry<C>>, e: Entry<C>)
    ensures Callbacks(es + [e]) == Callbacks(es) + [e.callback]
  {
    if es != [] {
      CallbacksAppend(es[1..], e);
      assert (es + [e])[1..] == es[1..] + [e];
    }
  }

  lemma TriggerUnsent<C>(w: Writer<C>, msg: Bytes, callback: C)
    requires OneInFlight(w)
    ensures OneInFlight(Trigger(w, msg, callback))
    ensures Unsent(Trigger(w, msg, callback)) == Unsent(w) + msg
  {
    MessagesAppend(w.queue, Entry(msg, callback));
  }

  lemma TransmitUnsent<C>(w: Writer<C>, k: nat)
    requires OneInFlight(w) && w.inFlight.Some? && w.sent + k <= |w.inFlight.value|
    ensures OneInFlight(Transmit(w, k)) && k <= |Unsent(w)|
    ensures Unsent(Transmit(w, k)) == Unsent(w)[k..]
    ensures Unsent(w)[..k] == w.inFlight.value[w.sent..w.sent + k]
  {
  }

  lemma WrittenUnsent<C>(w: Writer<C>)
    requires OneInFlight(w) && CanComplete(w)
    ensures OneInFlight(Written(w)) && Unsent(Written(w)) == Unsent(w)
  {
  }

  // ---------- Whole runs ----------

  datatype Event<+C> = Enqueue(msg: Bytes, callback: C) | Take(k: nat) | Complete

  /** The writer, every byte the socket took, and the callbacks run, in order. */
  datatype Run<+C> = Run(writer: Writer<C>, wire: Bytes, fired: seq<C>)

  /** One event; None when it cannot happen. A callback that enqueues again is a Complete followed by an Enqueue. */
  function Step<C>(r: Run<C>, e: Event<C>): Option<Run<C>> {
    match e
    case Enqueue(msg, callback) => Some(r.(writer := Trigger(r.writer, msg, callback)))
    case Take(k) =>
      if r.writer.inFlight.Some? && r.writer.sent + k <= |r.writer.inFlight.value| then
        Some(r.(writer := Transmit(r.writer, k),
                wire := r.wire + r.writer.inFlight.value[r.writer.sent..r.writer.sent + k]))
      else None
    case Complete =>
      if CanComplete(r.writer) && r.writer.queue != [] then
        Some(r.(writer := Written(r.writer), fired := r.fired + [r.writer.queue[0].callback]))
      else None
  }

  function Runs<C>(es: seq<Event<C>>): Option<Run<C>> {
    if es == [] then Some(Run(EmptyWriter(), [], []))
    else
      match Runs(es[..|es| - 1])
      case None => None
      case Some(r) => Step(r, es[|es| - 1])
  }

  /** The entries a run enqueues, in order. */
  function Enqueued<C>(es: seq<Event<C>>): seq<Entry<C>> {
    if es == [] then []
    else
      var init := Enqueued(es[..|es| - 1]);
      var e := es[|es| - 1];
      if e.Enqueue? then init + [Entry(e.msg, e.callback)] else init
  }

  /**
   * After `done` entries have completed: they are the oldest ones, their callbacks ran once each in
   * order, the rest wait in order, and the wire holds the done messages and the sent part of the head.
   */
  ghost predicate RunInvariant<C>(r: Run<C>, entries: seq<Entry<C>>) {
    && OneInFlight(r.writer)
    && |r.fired| <= |entries|
    && r.fired == Callbacks(entries[..|r.fired|])
    && r.writer.queue == entries[|r.fired|..]
    && r.wire + Unsent(r.writer) == Messages(entries)
    && |r.wire| == |Messages(entries[..|r.fired|])| + r.writer.sent
  }

  lemma StepKeepsInvariant<C>(r: Run<C>, entries: seq<Entry<C>>, e: Event<C>)
    requires RunInvariant(r, entries) && Step(r, e).Some?
    ensures RunInvariant(Step(r, e).value, if e.Enqueue? then entries + [Entry(e.msg, e.callback)] else entries)
  {
    hide Unsent, Messages, Callbacks;
    var r' := Step(r, e).value;
    var n := |r.fired|;
    match e
    case Enqueue(msg, callback) =>
      var entries' := entries + [Entry(msg, callback)];
      TriggerUnsent(r.writer, msg, callback);
      MessagesAppend(entries, Entry(msg, callback));
      assert entries'[..n] == entries[..n] && entries'[n..] == entries[n..] + [Entry(msg, callback)];
      assert r.wire + (Unsent(r.writer) + msg) == (r.wire + Unsent(r.writer)) + msg;
    case Take(k) =>
      TransmitUnsent(r.writer, k);
      assert Unsent(r.writer) == Unsent(r.writer)[..k] + Unsent(r.writer)[k..];
    case Complete =>
      WrittenUnsent(r.writer);
      assert entries[..n + 1] == entries[..n] + [entries[n]];
      MessagesAppend(entries[..n], entries[n]);
      CallbacksAppend(entries[..n], entries[n]);
      assert entries[n..][1..] == entries[n + 1..];
  }

  /** Every run: one write in flight exactly when the queue is non-empty, and everything in enqueue order. */
  lemma {:induction false} EveryRunIsSerial<C>(es: seq<Event<C>>)
    requires Runs(es).Some?
    ensures RunInvariant(Runs(es).value, Enqueued(es))
  {
    hide RunInvariant, Step;
    if es == [] {
      EmptyRunInvariant<C>();
    } else {
      var init := es[..|es| - 1];
      EveryRunIsSerial(init);
      StepKeepsInvariant(Runs(init).value, Enqueued(init), es[|es| - 1]);
    }
  }

  lemma EmptyRunInvariant<C>()
    ensures RunInvariant<C>(Run(EmptyWriter(), [], []), [])
  {
  }
}
