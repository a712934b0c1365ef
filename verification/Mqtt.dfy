/** The publish queue in front of lwIP's MQTT client (app/comm/mqtt_app.c). */
module Mqtt {
  import opened Bytes

  const QUEUE_SIZE := 64
  const MAX_TOPIC_LEN := 40
  const MAX_PAYLOAD_LEN := 16

  datatype Msg = Msg(topic: seq<Byte>, payload: seq<Byte>, qos: Byte, retain: Byte)

  const NO_MSG := Msg([], [], 0, 0)

  /** What fits into a slot: longer topics and payloads are cut. */
  function Stored(topic: seq<Byte>, payload: seq<Byte>, qos: Byte, retain: Byte): Msg {
    Msg(if |topic| >= MAX_TOPIC_LEN then topic[..MAX_TOPIC_LEN - 1] else topic,
        if |payload| > MAX_PAYLOAD_LEN then payload[..MAX_PAYLOAD_LEN] else payload,
        qos, retain)
  }

  // ----- The queue as a FIFO -----

  /** A call of lwIP's `mqtt_publish`, which takes the message or refuses at once. */
  datatype Request = Request(msg: Msg, taken: bool)

  /** The messages lwIP took. */
  function TakenOf(calls: seq<Request>): seq<Msg> {
    if calls == [] then []
    else TakenOf(calls[..|calls| - 1]) + if calls[|calls| - 1].taken then [calls[|calls| - 1].msg] else []
  }

  lemma TakenMore(calls: seq<Request>, call: Request)
    ensures TakenOf(calls + [call]) == TakenOf(calls) + if call.taken then [call.msg] else []
  {
    assert (calls + [call])[..|calls|] == calls;
  }

  /** `calls` are all calls of lwIP, `completed` the messages it reported back; `busy` while one is
      outstanding. */
  datatype Fifo = Fifo(pending: seq<Msg>, busy: bool, accepted: seq<Msg>, calls: seq<Request>, completed: seq<Msg>) {
    predicate Full() {
      |pending| >= QUEUE_SIZE - 1
    }

    /** Hands the oldest message to lwIP. */
    function Send(taken: bool): Fifo
      requires pending != []
    {
      this.(busy := taken, calls := calls + [Request(pending[0], taken)])
    }

    function Publish(m: Msg, taken: bool): Fifo {
      if Full() then this
      else
        var f := this.(pending := pending + [m], accepted := accepted + [m]);
        if busy then f else f.Send(taken)
    }

    function Complete(taken: bool): Fifo
      requires busy && pending != []
    {
      var f := this.(busy := false, pending := pending[1..], completed := completed + [pending[0]]);
      if f.pending == [] then f else f.Send(taken)
    }

    /** Nothing is lost, doubled or reordered; the one outstanding request is the oldest message; and the
        queue is idle with messages left only if the last call, for the oldest of them, was refused. */
    ghost predicate Inv() {
      && accepted == completed + pending
      && TakenOf(calls) == completed + (if busy && pending != [] then [pending[0]] else [])
      && (busy ==> pending != [])
      && (!busy && pending != [] ==> calls != [] && calls[|calls| - 1] == Request(pending[0], false))
      && |pending| < QUEUE_SIZE
    }
  }

  const EMPTY := Fifo([], false, [], [], [])

  datatype FifoEvent = Publishes(m: Msg, taken: bool) | Completes(taken: bool)

  /** A completion comes only while a request is outstanding. */
  predicate Enabled(f: Fifo, event: FifoEvent) {
    event.Completes? ==> f.busy && f.pending != []
  }

  function FifoStep(f: Fifo, event: FifoEvent): Fifo
    requires Enabled(f, event)
  {
    match event
    case Publishes(m, taken) => f.Publish(m, taken)
    case Completes(taken) => f.Complete(taken)
  }

  lemma StepKeeps(f: Fifo, event: FifoEvent)
    requires f.Inv() && Enabled(f, event)
    ensures FifoStep(f, event).Inv()
    ensures f.accepted <= FifoStep(f, event).accepted && f.completed <= FifoStep(f, event).completed
    ensures f.calls <= FifoStep(f, event).calls
  {
    hide TakenOf;
    forall m: Msg, taken: bool
      ensures TakenOf(f.calls + [Request(m, taken)]) == TakenOf(f.calls) + if taken then [m] else []
    {
      TakenMore(f.calls, Request(m, taken));
    }
    if event.Completes? {
      assert f.pending == [f.pending[0]] + f.pending[1..];
    }
  }

  ghost predicate FifoRun(states: seq<Fifo>, events: seq<FifoEvent>) {
    && |states| == |events| + 1 && states[0] == EMPTY
    && forall i :: 0 <= i < |events| ==>
           Enabled(states[i], events[i]) && states[i + 1] == FifoStep(states[i], events[i])
  }

  /** Over every interleaving of publishing, immediate refusal and completion. */
  lemma {:induction false} FifoRuns(states: seq<Fifo>, events: seq<FifoEvent>, i: nat)
    requires FifoRun(states, events) && i <= |events|
    ensures states[i].Inv()
  {
    hide FifoStep, Enabled;
    if i > 0 {
      FifoRuns(states, events, i - 1);
      StepKeeps(states[i - 1], events[i - 1]);
    }
  }

  /** In every state of a run: if the queue is idle although messages wait, the last call was for the oldest
      of them and lwIP refused it; so while lwIP takes what it is given, no message waits in an idle queue. */
  lemma IdleWasRefused(states: seq<Fifo>, events: seq<FifoEvent>, i: nat)
    requires FifoRun(states, events) && i <= |events|
    ensures var f := states[i];
            !f.busy && f.pending != [] ==> f.calls != [] && f.calls[|f.calls| - 1] == Request(f.pending[0], false)
    ensures var f := states[i];
            (forall k :: 0 <= k < |f.calls| ==> f.calls[k].taken) ==> f.busy == (f.pending != [])
  {
    hide FifoRun;
    FifoRuns(states, events, i);
  }

  /** At most 39 bytes of a topic and 16 of a payload are kept, from the beginning; the rest is as given. */
  lemma StoredCut(topic: seq<Byte>, payload: seq<Byte>, qos: Byte, retain: Byte)
    ensures var m := Stored(topic, payload, qos, retain);
            && m.topic <= topic && (|m.topic| == 39 < |topic| || (m.topic == topic && |topic| <= 39))
            && m.payload <= payload && (|m.payload| == 16 < |payload| || (m.payload == payload && |payload| <= 16))
            && m.qos == qos && m.retain == retain
  {}

  // ----- The ring -----

  /** `n` messages from slot `tail` on, around the end. */
  function Ring(slots: seq<Msg>, tail: nat, n: nat): (s: seq<Msg>)
    requires |slots| == QUEUE_SIZE && tail < QUEUE_SIZE && n <= QUEUE_SIZE
    ensures |s| == n && (n > 0 ==> s[0] == slots[tail])
  {
    if tail + n <= QUEUE_SIZE then slots[tail..tail + n] else slots[tail..] + slots[..tail + n - QUEUE_SIZE]
  }

  lemma RingPush(slots: seq<Msg>, tail: nat, n: nat, head: nat, m: Msg)
    requires |slots| == QUEUE_SIZE && tail < QUEUE_SIZE && n < QUEUE_SIZE
    requires head == if tail + n < QUEUE_SIZE then tail + n else tail + n - QUEUE_SIZE
    ensures Ring(slots[head := m], tail, n + 1) == Ring(slots, tail, n) + [m]
  {
    var more := slots[head := m];
    if tail + n < QUEUE_SIZE {
      assert more[tail..tail + n + 1] == slots[tail..tail + n] + [m];
    } else {
      assert more[tail..] == slots[tail..] && more[..head + 1] == slots[..head] + [m];
    }
  }

  lemma RingPop(slots: seq<Msg>, tail: nat, n: nat)
    requires |slots| == QUEUE_SIZE && 0 < n <= QUEUE_SIZE && tail < QUEUE_SIZE
    ensures Ring(slots, if tail == QUEUE_SIZE - 1 then 0 else tail + 1, n - 1) == Ring(slots, tail, n)[1..]
  {}

  class MqttQueue {
    const storage: array<Msg>
    var head: nat
    var tail: nat
    var isSending: bool
    ghost var accepted: seq<Msg>
    ghost var calls: seq<Request>
    ghost var completed: seq<Msg>

    function Count(): nat
      requires tail < QUEUE_SIZE
      reads this
    {
      (head + QUEUE_SIZE - tail) % QUEUE_SIZE
    }

    ghost function Pending(): (s: seq<Msg>)
      requires tail < QUEUE_SIZE && storage.Length == QUEUE_SIZE
      reads this, storage
    {
      Ring(storage[..], tail, Count())
    }

    ghost function State(): Fifo
      requires tail < QUEUE_SIZE && storage.Length == QUEUE_SIZE
      reads this, storage
    {
      Fifo(Pending(), isSending, accepted, calls, completed)
    }

    ghost predicate Valid()
      reads this, storage
    {
      storage.Length == QUEUE_SIZE && head < QUEUE_SIZE && tail < QUEUE_SIZE && State().Inv()
    }

    constructor ()
      ensures Valid() && State() == EMPTY && fresh(storage)
    {
      storage := new Msg[QUEUE_SIZE](_ => NO_MSG);
      head, tail, isSending := 0, 0, false;
      accepted, calls, completed := [], [], [];
    }

    /** `mqtt_queue_send_next`; `taken` is lwIP's answer. */
    method SendNext(taken: bool) returns (sts: int)
      requires storage.Length == QUEUE_SIZE && head < QUEUE_SIZE && tail < QUEUE_SIZE && head != tail
      modifies this`isSending, this`calls
      ensures calls == old(calls) + [Request(storage[tail], taken)] && isSending == taken
      ensures State() == old(State()).Send(taken)
      ensures sts == if taken then 0 else -1
    {
      hide Ring;
      CountTail();
      isSending := true;
      var msg := storage[tail];
      calls := calls + [Request(msg, taken)];
      if !taken {
        isSending := false;
        return -1;
      }
      return 0;
    }

    /** -1 when the queue is full, 0 when lwIP took a message, 1 when it waits; `taken` is what lwIP answers
        should it be called: once, with the oldest message, exactly if the queue was idle. */
    method Publish(topic: seq<Byte>, payload: seq<Byte>, qos: Byte, retain: Byte, taken: bool) returns (sts: int)
      requires Valid()
      modifies this`head, this`isSending, this`accepted, this`calls, storage
      ensures Valid()
      ensures if old(|Pending()|) == 63 then sts == -1 && State() == old(State())
              else && Pending() == old(Pending()) + [Stored(topic, payload, qos, retain)]
                   && accepted == old(accepted) + [Stored(topic, payload, qos, retain)]
                   && calls == old(calls) + (if old(isSending) then [] else [Request(Pending()[0], taken)])
                   && isSending == (old(isSending) || taken)
                   && sts == if !old(isSending) && taken then 0 else 1
      ensures State() == old(State()).Publish(Stored(topic, payload, qos, retain), taken)
      ensures old(isSending) ==> tail == old(tail) && storage[tail] == old(storage[tail])
    {
      hide Ring, Fifo.Inv, TakenOf;
      var nextHead := (head + 1) % QUEUE_SIZE;
      InvNow();
      CountHead();
      StepKeeps(State(), Publishes(Stored(topic, payload, qos, retain), taken));
      if nextHead == tail {
        return -1;
      }
      var msg := Stored(topic, payload, qos, retain);
      Put(msg);
      if isSending {
        return 1;
      }
      var r := SendNext(taken);
      return if r != 0 then 1 else 0;
    }

    /** A message into the slot at `head`, which no pending message occupies. */
    method Put(msg: Msg)
      requires storage.Length == QUEUE_SIZE && head < QUEUE_SIZE && tail < QUEUE_SIZE && Count() < QUEUE_SIZE - 1
      modifies this`head, this`accepted, storage
      ensures head == (old(head) + 1) % QUEUE_SIZE
      ensures var s := old(State()); State() == s.(pending := s.pending + [msg], accepted := s.accepted + [msg])
      ensures old(Count()) > 0 ==> storage[tail] == old(storage[tail])
    {
      hide Ring;
      CountHead();
      ghost var slots := storage[..];
      RingPush(slots, tail, Count(), head, msg);
      storage[head] := msg;
      assert storage[..] == slots[head := msg];
      head := (head + 1) % QUEUE_SIZE;
      accepted := accepted + [msg];
    }

    /** `mqtt_pub_request_cb`, called by lwIP while a request is outstanding, whatever its result. With messages
        left it calls lwIP once, with the oldest; `taken` is the answer. */
    method PubRequestCb(taken: bool)
      requires Valid() && isSending
      modifies this`tail, this`isSending, this`calls, this`completed
      ensures Valid()
      ensures old(Pending()) != [] && Pending() == old(Pending())[1..]
      ensures completed == old(completed) + [old(Pending())[0]]
      ensures calls == old(calls) + (if Pending() == [] then [] else [Request(Pending()[0], taken)])
      ensures isSending == (Pending() != [] && taken)
      ensures State() == old(State()).Complete(taken)
    {
      hide Ring, Fifo.Inv, TakenOf;
      InvNow();
      CountTail();
      RingPop(storage[..], tail, Count());
      StepKeeps(State(), Completes(taken));
      isSending := false;
      completed := completed + [Pending()[0]];
      tail := (tail + 1) % QUEUE_SIZE;
      if head != tail {
        var r := SendNext(taken);
      }
    }

    lemma InvNow()
      requires Valid()
      ensures Count() < QUEUE_SIZE && (isSending ==> Count() > 0)
    {
      hide Ring;
    }

    lemma CountHead()
      requires head < QUEUE_SIZE && tail < QUEUE_SIZE
      ensures var next := (head + 1) % QUEUE_SIZE;
              && (next == tail <==> Count() == QUEUE_SIZE - 1)
              && (next != tail ==> (next + QUEUE_SIZE - tail) % QUEUE_SIZE == Count() + 1)
              && head == (if tail + Count() < QUEUE_SIZE then tail + Count() else tail + Count() - QUEUE_SIZE)
    {}

    lemma CountTail()
      requires head < QUEUE_SIZE && tail < QUEUE_SIZE
      ensures head != tail <==> Count() > 0
      ensures (tail + 1) % QUEUE_SIZE == if tail == QUEUE_SIZE - 1 then 0 else tail + 1
      ensures head != tail ==> (head + QUEUE_SIZE - (tail + 1) % QUEUE_SIZE) % QUEUE_SIZE == Count() - 1
    {}
  }
}
