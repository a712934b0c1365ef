/** Bookkeeping of waiting CAN messages (common/canopendriver/CO_driver_target.c). */
module CanTx {
  import opened Bytes

  const U16_MOD := 0x1_0000

  datatype Buffer = Buffer(ident: int, dlc: Byte, full: bool, sync: bool)

  datatype Error = ERROR_NO | ERROR_TX_OVERFLOW

  // ----- The state that matters, and its steps -----

  /** Which buffers are full, and the 16-bit counter. */
  datatype Waiting = Waiting(full: seq<bool>, count: U16)

  function FullFrom(full: seq<bool>, i: nat): nat
    requires i <= |full|
    decreases |full| - i
  {
    if i == |full| then 0 else (if full[i] then 1 else 0) + FullFrom(full, i + 1)
  }

  function FullCount(full: seq<bool>): nat {
    FullFrom(full, 0)
  }

  /** The counter covers the full buffers, so zero means that none waits. */
  ghost predicate Covered(w: Waiting) {
    FullCount(w.full) <= w.count
  }

  lemma {:induction false} FullUpdate(full: seq<bool>, i: nat, k: nat, b: bool)
    requires i <= |full| && k < |full|
    ensures FullFrom(full[k := b], i) ==
            FullFrom(full, i) + if k < i || full[k] == b then 0 else if b then 1 else -1
    decreases |full| - i
  {
    if i < |full| {
      FullUpdate(full, i + 1, k, b);
    }
  }

  lemma {:induction false} NoneFull(full: seq<bool>, i: nat)
    requires i <= |full|
    ensures FullFrom(full, i) == 0 <==> forall k :: i <= k < |full| ==> !full[k]
    decreases |full| - i
  {
    if i < |full| {
      NoneFull(full, i + 1);
    }
  }

  /** A message that has to wait; the counter wraps. */
  function Append(w: Waiting, k: nat): Waiting
    requires k < |w.full|
  {
    Waiting(w.full[k := true], (w.count + 1) % U16_MOD)
  }

  /** The counter covers the buffers again after a message has been put to wait exactly unless it wrapped. */
  lemma AppendCovered(w: Waiting, k: nat)
    requires Covered(w) && k < |w.full|
    ensures Covered(Append(w, k)) <==> w.count < U16_MOD - 1
  {
    FullUpdate(w.full, 0, k, true);
    NoneFull(w.full[k := true], 0);
    assert w.full[k := true][k];
  }

  /** The first full buffer from `i` on, -1 if there is none. */
  function FirstFull(full: seq<bool>, i: nat := 0): (k: int)
    requires i <= |full|
    ensures k == -1 || i <= k < |full|
    ensures k >= 0 ==> full[k] && forall j :: i <= j < k ==> !full[j]
    ensures k == -1 ==> forall j :: i <= j < |full| ==> !full[j]
    decreases |full| - i
  {
    if i == |full| then -1 else if full[i] then i else FirstFull(full, i + 1)
  }

  /** A transmit interrupt: the first waiting message goes out. */
  function Interrupt(w: Waiting): Waiting {
    var k := FirstFull(w.full);
    if w.count == 0 then w
    else if k < 0 then w.(count := 0)
    else Waiting(w.full[k := false], w.count - 1)
  }

  lemma InterruptCovered(w: Waiting)
    requires Covered(w)
    ensures Covered(Interrupt(w))
    ensures FirstFull(w.full) >= 0 ==>
              w.count > 0 && FullCount(Interrupt(w).full) == FullCount(w.full) - 1 && Interrupt(w).count == w.count - 1
    ensures FirstFull(w.full) < 0 ==> Interrupt(w) == w.(count := 0) && FullCount(w.full) == 0
  {
    NoneFull(w.full, 0);
    if FirstFull(w.full) >= 0 {
      FullUpdate(w.full, 0, FirstFull(w.full), false);
    }
  }

  /** The buffers that go out over `n` interrupts without new sends. */
  function Drained(w: Waiting, n: nat): seq<nat>
    decreases n
  {
    if n == 0 then []
    else
      var k := FirstFull(w.full);
      (if w.count > 0 && k >= 0 then [k] else []) + Drained(Interrupt(w), n - 1)
  }

  function After(w: Waiting, n: nat): Waiting
    decreases n
  {
    if n == 0 then w else After(Interrupt(w), n - 1)
  }

  /** The full buffers from `i` on, in ascending order. */
  function FullIndices(full: seq<bool>, i: nat := 0): seq<nat>
    requires i <= |full|
    decreases |full| - i
  {
    if i == |full| then []
    else (if full[i] then [i] else []) + FullIndices(full, i + 1)
  }

  lemma {:induction false} IndicesAscend(full: seq<bool>, i: nat)
    requires i <= |full|
    ensures var s := FullIndices(full, i);
            && |s| == FullFrom(full, i)
            && (forall a, b :: 0 <= a < b < |s| ==> s[a] < s[b])
            && (forall a :: 0 <= a < |s| ==> i <= s[a] < |full|)
    decreases |full| - i
  {
    if i < |full| {
      IndicesAscend(full, i + 1);
    }
  }

  lemma {:induction false} IndicesComplete(full: seq<bool>, i: nat, k: nat)
    requires i <= k < |full|
    ensures k in FullIndices(full, i) <==> full[k]
    decreases |full| - i
  {
    if i < k {
      IndicesComplete(full, i + 1, k);
    } else {
      IndicesAscend(full, i + 1);
      var rest := FullIndices(full, i + 1);
      assert FullIndices(full, i) == (if full[i] then [i] else []) + rest;
      assert i !in rest;
    }
  }

  /** Clearing the first full buffer takes the first index away. */
  lemma {:induction false} IndicesWithoutFirst(full: seq<bool>, i: nat)
    requires i <= |full|
    ensures var k := FirstFull(full, i);
            FullIndices(full, i) == if k < 0 then [] else [k] + FullIndices(full[k := false], i)
    decreases |full| - i
  {
    if i < |full| {
      if full[i] {
        SameBehind(full, full[i := false], i + 1);
        assert FullIndices(full[i := false], i) == FullIndices(full[i := false], i + 1);
      } else {
        IndicesWithoutFirst(full, i + 1);
      }
    }
  }

  lemma {:induction false} SameBehind(a: seq<bool>, b: seq<bool>, i: nat)
    requires |a| == |b| && i <= |a| && forall k :: i <= k < |a| ==> a[k] == b[k]
    ensures FullIndices(a, i) == FullIndices(b, i)
    decreases |a| - i
  {
    if i < |a| {
      SameBehind(a, b, i + 1);
    }
  }

  /** With no new sends, as many interrupts as the counter says empty all buffers, in ascending order,
      and leave the counter at zero. */
  lemma {:induction false} Drains(w: Waiting, n: nat)
    requires Covered(w) && n >= w.count
    ensures Drained(w, n) == FullIndices(w.full)
    ensures After(w, n).count == 0 && |After(w, n).full| == |w.full|
    ensures forall k :: 0 <= k < |w.full| ==> !After(w, n).full[k]
    decreases n
  {
    hide FullFrom, FullIndices, FirstFull;
    InterruptCovered(w);
    IndicesWithoutFirst(w.full, 0);
    if n == 0 {
      NoneFull(w.full, 0);
      NoFirst(w.full);
    } else {
      Drains(Interrupt(w), n - 1);
    }
  }

  lemma NoFirst(full: seq<bool>)
    requires forall k :: 0 <= k < |full| ==> !full[k]
    ensures FirstFull(full) == -1
  {}

  // ----- Runs -----

  datatype TxEvent = Inits(k: nat) | Sends(k: nat, sent: bool) | Clears(sync: seq<bool>) | Interrupts

  /** The full buffers that are not synchronous. */
  function Without(full: seq<bool>, sync: seq<bool>): (s: seq<bool>)
    requires |sync| == |full|
    ensures |s| == |full| && forall i :: 0 <= i < |s| ==> s[i] == (full[i] && !sync[i])
  {
    seq(|full|, i requires 0 <= i < |full| => full[i] && !sync[i])
  }

  /** The counter, as a 16-bit one, after the difference between two numbers of full buffers. */
  function CountedOff(count: U16, before: nat, after: nat): U16 {
    (count - (before - after)) % U16_MOD
  }

  /** What each operation of the module below does to the waiting messages. */
  ghost predicate TxNext(w: Waiting, event: TxEvent, v: Waiting) {
    match event
    case Inits(k) => k < |w.full| && v == w.(full := w.full[k := false])
    case Sends(k, sent) => k < |w.full| && v == if sent && w.count == 0 then w else Append(w, k)
    case Clears(sync) =>
      && |sync| == |w.full|
      && var left := Without(w.full, sync);
         v == if w.count == 0 then w else Waiting(left, CountedOff(w.count, FullCount(w.full), FullCount(left)))
    case Interrupts => v == Interrupt(w)
  }

  /** The counter is about to wrap. */
  ghost predicate Wraps(w: Waiting, event: TxEvent) {
    event.Sends? && !(event.sent && w.count == 0) && w.count == U16_MOD - 1
  }

  ghost predicate TxRun(states: seq<Waiting>, events: seq<TxEvent>) {
    && |states| == |events| + 1
    && states[0].count == 0 && (forall k :: 0 <= k < |states[0].full| ==> !states[0].full[k])
    && forall j :: 0 <= j < |events| ==> TxNext(states[j], events[j], states[j + 1])
  }

  lemma {:induction false} FewerFull(full: seq<bool>, left: seq<bool>, i: nat)
    requires |left| == |full| && i <= |full| && forall k :: 0 <= k < |full| ==> left[k] ==> full[k]
    ensures FullFrom(left, i) <= FullFrom(full, i)
    decreases |full| - i
  {
    if i < |full| {
      FewerFull(full, left, i + 1);
    }
  }

  /** A step keeps the buffers covered exactly unless the counter wraps in it. */
  lemma StepCovered(w: Waiting, event: TxEvent, v: Waiting)
    requires Covered(w) && TxNext(w, event, v)
    ensures Covered(v) <==> !Wraps(w, event)
  {
    hide FullFrom;
    match event
    case Inits(k) => FullUpdate(w.full, 0, k, false);
    case Sends(k, _) => AppendCovered(w, k);
    case Clears(sync) => FewerFull(w.full, Without(w.full, sync), 0);
    case Interrupts => InterruptCovered(w);
  }

  lemma {:induction false} CoveredUntilWrap(states: seq<Waiting>, events: seq<TxEvent>, i: nat)
    requires TxRun(states, events) && i <= |events|
    requires forall j :: 0 <= j < i ==> !Wraps(states[j], events[j])
    ensures Covered(states[i])
  {
    hide TxNext, Covered, Wraps;
    if i == 0 {
      InitiallyCovered(states[0]);
    } else {
      CoveredUntilWrap(states, events, i - 1);
      assert !Wraps(states[i - 1], events[i - 1]);
      StepCovered(states[i - 1], events[i - 1], states[i]);
    }
  }

  lemma InitiallyCovered(w: Waiting)
    requires forall k :: 0 <= k < |w.full| ==> !w.full[k]
    ensures Covered(w)
  {
    NoneFull(w.full, 0);
  }

  /** The counter covers the full buffers in every state of a run exactly if it never wraps. */
  lemma RunCovered(states: seq<Waiting>, events: seq<TxEvent>)
    requires TxRun(states, events)
    ensures (forall i :: 0 <= i < |states| ==> Covered(states[i])) <==>
            (forall j :: 0 <= j < |events| ==> !Wraps(states[j], events[j]))
  {
    hide TxNext, Covered, Wraps;
    if forall j :: 0 <= j < |events| ==> !Wraps(states[j], events[j]) {
      forall i | 0 <= i < |states|
        ensures Covered(states[i])
      {
        CoveredUntilWrap(states, events, i);
      }
    }
    if forall i :: 0 <= i < |states| ==> Covered(states[i]) {
      forall j | 0 <= j < |events|
        ensures !Wraps(states[j], events[j])
      {
        assert Covered(states[j]) && Covered(states[j + 1]);
        StepCovered(states[j], events[j], states[j + 1]);
      }
    }
  }

  /** While the counter covers the buffers, zero means that no message waits. */
  lemma ZeroMeansNone(w: Waiting)
    requires Covered(w) && w.count == 0
    ensures forall k :: 0 <= k < |w.full| ==> !w.full[k]
  {
    NoneFull(w.full, 0);
  }

  // ----- How often a message goes out -----

  /** How often the event hands buffer `k` to the driver with success: at its send, or from the interrupt. */
  function HandedOver(w: Waiting, event: TxEvent, k: nat): nat {
    match event
    case Sends(j, sent) => if j == k && sent then 1 else 0
    case Interrupts => if w.count > 0 && FirstFull(w.full) == k then 1 else 0
    case _ => 0
  }

  /** Messages of buffer `k` that never go out: overwritten by a newer one, cleared or initialised away. */
  function Lost(w: Waiting, event: TxEvent, k: nat): nat
    requires k < |w.full|
  {
    match event
    case Inits(j) => if j == k && w.full[k] then 1 else 0
    case Sends(j, sent) => if j == k && w.full[k] && !(sent && w.count == 0) then 1 else 0
    case Clears(sync) => if w.count > 0 && k < |sync| && sync[k] && w.full[k] then 1 else 0
    case Interrupts => 0
  }

  /** The event sends a message of buffer `k`. */
  function SentOff(event: TxEvent, k: nat): nat {
    if event.Sends? && event.k == k then 1 else 0
  }

  /** The driver takes the message at once, but others wait, and so it is put to wait as well. */
  predicate Doubles(w: Waiting, event: TxEvent, k: nat) {
    event == Sends(k, true) && w.count != 0
  }

  function One(b: bool): nat {
    if b then 1 else 0
  }

  lemma StepBalance(w: Waiting, event: TxEvent, v: Waiting, k: nat)
    requires TxNext(w, event, v) && k < |w.full|
    ensures |v.full| == |w.full|
    ensures HandedOver(w, event, k) + Lost(w, event, k) + One(v.full[k]) ==
            One(w.full[k]) + SentOff(event, k) + One(Doubles(w, event, k))
  {
    hide FullFrom;
  }

  /** What happened to buffer `k` over the first steps of a run. */
  datatype Account = Account(handed: nat, lost: nat, sent: nat, doubled: nat)

  ghost function AccountOf(states: seq<Waiting>, events: seq<TxEvent>, k: nat, n: nat): Account
    requires TxRun(states, events) && k < |states[0].full| && n <= |events|
  {
    if n == 0 then Account(0, 0, 0, 0)
    else
      SameSize(states, events, n - 1);
      var t, w, e := AccountOf(states, events, k, n - 1), states[n - 1], events[n - 1];
      Account(t.handed + HandedOver(w, e, k), t.lost + Lost(w, e, k), t.sent + SentOff(e, k),
              t.doubled + One(Doubles(w, e, k)))
  }

  lemma {:induction false} SameSize(states: seq<Waiting>, events: seq<TxEvent>, n: nat)
    requires TxRun(states, events) && n <= |events|
    ensures |states[n].full| == |states[0].full|
  {
    hide FullFrom;
    if n > 0 {
      SameSize(states, events, n - 1);
      assert TxNext(states[n - 1], events[n - 1], states[n]);
    }
  }

  /** In every run what was sent, and what was doubled, has been handed over, was lost, or still waits. */
  lemma {:induction false} Balance(states: seq<Waiting>, events: seq<TxEvent>, k: nat, n: nat)
    requires TxRun(states, events) && k < |states[0].full| && n <= |events|
    ensures |states[n].full| == |states[0].full|
    ensures var t := AccountOf(states, events, k, n);
            && t.handed + t.lost + One(states[n].full[k]) == t.sent + t.doubled
            && (t.doubled == 0 <==> forall j :: 0 <= j < n ==> !Doubles(states[j], events[j], k))
  {
    hide TxNext, HandedOver, Lost, SentOff, Doubles;
    SameSize(states, events, n);
    if n > 0 {
      Balance(states, events, k, n - 1);
      StepBalance(states[n - 1], events[n - 1], states[n], k);
    }
  }

  /** Every message goes out once, is lost or still waits, exactly if none is sent that the driver takes at once
      while the counter is not zero. */
  lemma EachOnce(states: seq<Waiting>, events: seq<TxEvent>, k: nat)
    requires TxRun(states, events) && k < |states[0].full|
    ensures |states[|events|].full| == |states[0].full|
    ensures var t := AccountOf(states, events, k, |events|);
            t.handed + t.lost + One(states[|events|].full[k]) == t.sent <==>
            forall j :: 0 <= j < |events| && events[j] == Sends(k, true) ==> states[j].count == 0
  {
    hide TxNext;
    Balance(states, events, k, |events|);
    forall j | 0 <= j < |events|
      ensures Doubles(states[j], events[j], k) <==> events[j] == Sends(k, true) && states[j].count != 0
    {}
  }

  /** A run in which one message goes out twice: it is sent while another waits. */
  lemma SentTwice(full: seq<bool>, k: nat, other: nat) returns (states: seq<Waiting>, events: seq<TxEvent>)
    requires k < |full| && other < |full| && k != other && forall i :: 0 <= i < |full| ==> !full[i]
    ensures TxRun(states, events) && states[0] == Waiting(full, 0) && |events| == 4
    ensures var t := AccountOf(states, events, k, 4); t.sent == 1 && t.handed == 2
  {
    hide FullFrom, FirstFull, Interrupt;
    var w0 := Waiting(full, 0);
    var w1 := Append(w0, other);
    var w2 := Append(w1, k);
    var w3 := Interrupt(w2);
    var w4 := Interrupt(w3);
    states, events := [w0, w1, w2, w3, w4], [Sends(other, false), Sends(k, true), Interrupts, Interrupts];
    assert TxNext(w0, events[0], w1) && TxNext(w1, events[1], w2);
    assert TxNext(w2, events[2], w3) && TxNext(w3, events[3], w4);
    assert AccountOf(states, events, k, 1) == Account(0, 0, 0, 0);
    assert AccountOf(states, events, k, 2) == Account(1, 0, 1, 1);
    BothGoOut(full, k, other);
    assert w2.full == full[other := true][k := true];
    assert AccountOf(states, events, k, 3).handed == 1 + HandedOver(w2, Interrupts, k);
  }

  lemma BothGoOut(full: seq<bool>, k: nat, other: nat)
    requires k < |full| && other < |full| && k != other && forall i :: 0 <= i < |full| ==> !full[i]
    ensures var w := Waiting(full[other := true][k := true], 2);
            HandedOver(w, Interrupts, k) + HandedOver(Interrupt(w), Interrupts, k) == 1
  {
    hide FullFrom;
    var w := Waiting(full[other := true][k := true], 2);
    assert w.full[k] && w.full[other];
    var first := FirstFull(w.full);
    var second := if first == k then other else k;
    assert first == k || first == other;
    assert Interrupt(w).full == full[second := true] && Interrupt(w).full[second];
    assert FirstFull(Interrupt(w).full) == second;
  }

  // ----- The module -----

  class CanModule {
    const txArray: array<Buffer>
    var canTxCount: U16
    var firstCanTxMessage: bool
    var bufferInhibitFlag: bool
    /** CO_CAN_ERRTX_OVERFLOW and CO_CAN_ERRTX_PDO_LATE of the error status. */
    var overflow: bool
    var pdoLate: bool

    ghost function Flags(): (s: seq<bool>)
      reads txArray
    {
      FlagsUpTo(txArray.Length)
    }

    ghost function FlagsUpTo(n: nat): (s: seq<bool>)
      requires n <= txArray.Length
      reads txArray
      ensures |s| == n && forall i :: 0 <= i < n ==> s[i] == txArray[i].full
    {
      if n == 0 then [] else FlagsUpTo(n - 1) + [txArray[n - 1].full]
    }

    ghost function SyncUpTo(n: nat): (s: seq<bool>)
      requires n <= txArray.Length
      reads txArray
      ensures |s| == n && forall i :: 0 <= i < n ==> s[i] == txArray[i].sync
    {
      if n == 0 then [] else SyncUpTo(n - 1) + [txArray[n - 1].sync]
    }

    ghost function SyncFlags(): seq<bool>
      reads txArray
    {
      SyncUpTo(txArray.Length)
    }

    ghost function State(): Waiting
      reads this, txArray
    {
      Waiting(Flags(), canTxCount)
    }

    /** `CO_CANmodule_init`, the transmit part. */
    method Init()
      modifies this, txArray
      ensures State().count == 0 && Covered(State()) && forall i :: 0 <= i < txArray.Length ==> !txArray[i].full
      ensures firstCanTxMessage && !bufferInhibitFlag && !overflow && !pdoLate
    {
      overflow, pdoLate, bufferInhibitFlag, firstCanTxMessage, canTxCount := false, false, false, true, 0;
      var i := 0;
      while i < txArray.Length
        invariant 0 <= i <= txArray.Length
        invariant forall j :: 0 <= j < i ==> !txArray[j].full
        invariant canTxCount == 0 && firstCanTxMessage && !bufferInhibitFlag && !overflow && !pdoLate
      {
        txArray[i] := txArray[i].(full := false);
        i := i + 1;
      }
      NoneFull(Flags(), 0);
    }

    /** `CO_CANtxBufferInit`: a waiting message is dropped, without the counter being told. */
    method TxBufferInit(index: nat, ident: int, dlc: Byte, sync: bool) returns (ok: bool)
      modifies txArray
      ensures ok <==> index < txArray.Length
      ensures if ok then TxNext(old(State()), Inits(index), State()) else State() == old(State())
    {
      if index >= txArray.Length {
        return false;
      }
      txArray[index] := Buffer(ident, dlc, false, sync);
      assert Flags() == old(Flags())[index := false];
      return true;
    }

    /** `CO_CANsend`; `sent` is the driver's answer: whether it had a free mailbox. A message that was
        sent although others wait is put to wait as well. */
    method Send(k: nat, sent: bool) returns (err: Error)
      requires k < txArray.Length
      modifies this, txArray
      ensures err == if old(txArray[k].full) then ERROR_TX_OVERFLOW else ERROR_NO
      ensures TxNext(old(State()), Sends(k, sent), State())
      ensures bufferInhibitFlag == if sent && old(canTxCount) == 0 then txArray[k].sync else old(bufferInhibitFlag)
      ensures overflow == (old(overflow) || (old(txArray[k].full) && !firstCanTxMessage))
      ensures firstCanTxMessage == old(firstCanTxMessage) && pdoLate == old(pdoLate)
    {
      err := ERROR_NO;
      if txArray[k].full {
        if !firstCanTxMessage {
          overflow := true;
        }
        err := ERROR_TX_OVERFLOW;
      }
      if sent && canTxCount == 0 {
        bufferInhibitFlag := txArray[k].sync;
      } else {
        txArray[k] := txArray[k].(full := true);
        canTxCount := (canTxCount + 1) % U16_MOD;
        assert Flags() == old(Flags())[k := true];
      }
    }

    /** One buffer no longer waits; the counter is a 16-bit one. */
    method TakeOff(i: nat)
      requires i < txArray.Length && txArray[i].full
      modifies this`canTxCount, txArray
      ensures Flags() == old(Flags())[i := false] && FullCount(Flags()) == old(FullCount(Flags())) - 1
      ensures forall j :: 0 <= j < txArray.Length ==>
                txArray[j] == if j == i then old(txArray[i]).(full := false) else old(txArray[j])
      ensures canTxCount == (old(canTxCount) + U16_MOD - 1) % U16_MOD
    {
      hide FullFrom, FlagsUpTo;
      ghost var before := Flags();
      FullUpdate(before, 0, i, false);
      NoneFull(before, 0);
      assert before[i];
      txArray[i] := txArray[i].(full := false);
      assert Flags() == before[i := false];
      canTxCount := (canTxCount + U16_MOD - 1) % U16_MOD;
      assert Flags() == before[i := false];
    }

    /** `CO_CANclearPendingSyncPDOs`: a synchronous message the driver is transmitting is aborted, and
        unless the counter is zero the waiting ones are dropped. */
    method ClearPendingSync(transmitting: bool) returns (aborted: bool)
      modifies this`canTxCount, this`bufferInhibitFlag, this`pdoLate, txArray
      ensures aborted <==> transmitting && old(bufferInhibitFlag)
      ensures bufferInhibitFlag == (old(bufferInhibitFlag) && !aborted)
      ensures TxNext(old(State()), Clears(old(SyncFlags())), State())
      ensures if old(canTxCount) == 0 then txArray[..] == old(txArray[..])
              else Dropped(old(txArray[..]), txArray[..], txArray.Length)
      ensures pdoLate <==> old(pdoLate) || aborted || Flags() != old(Flags())
    {
      hide FullFrom, FlagsUpTo, SyncUpTo;
      aborted := false;
      if transmitting && bufferInhibitFlag {
        bufferInhibitFlag := false;
        aborted := true;
      }
      var deleted := false;
      if canTxCount != 0 {
        deleted := DropSync();
        assert Flags() == Without(old(Flags()), old(SyncFlags()));
      }
      if aborted || deleted {
        pdoLate := true;
      }
    }

    /** The loop over the buffers. */
    method DropSync() returns (deleted: bool)
      modifies this`canTxCount, txArray
      ensures Dropped(old(txArray[..]), txArray[..], txArray.Length)
      ensures canTxCount == CountedOff(old(canTxCount), old(FullCount(Flags())), FullCount(Flags()))
      ensures deleted <==> Flags() != old(Flags())
    {
      hide FullFrom, FlagsUpTo, Dropped, CountedOff;
      deleted := false;
      ghost var before, first := txArray[..], 0;
      var i := 0;
      DroppedStart(before);
      NothingCounted(canTxCount, FullCount(Flags()));
      while i < txArray.Length
        invariant 0 <= i <= txArray.Length && Dropped(before, txArray[..], i)
        invariant canTxCount == CountedOff(old(canTxCount), old(FullCount(Flags())), FullCount(Flags()))
        invariant deleted ==> first < i && before[first].full && !txArray[first].full
        invariant !deleted ==> txArray[..] == before
      {
        ghost var mid, full := txArray[..], FullCount(Flags());
        if txArray[i].full {
          if txArray[i].sync {
            TakeOff(i);
            CountedOneMore(old(canTxCount), old(FullCount(Flags())), full);
            first := if deleted then first else i;
            deleted := true;
          }
        }
        DroppedStep(before, mid, txArray[..], i);
        i := i + 1;
      }
      assert deleted ==> old(Flags())[first] && !Flags()[first];
      assert !deleted ==> Flags() == old(Flags());
    }

    /** The transmit half of `CO_CANinterrupt`; `next` is the buffer handed to the driver, -1 for none. */
    method TxInterrupt() returns (next: int)
      modifies this, txArray
      ensures TxNext(old(State()), Interrupts, State())
      ensures next == if old(canTxCount) == 0 then -1 else FirstFull(old(Flags()))
      ensures !firstCanTxMessage && overflow == old(overflow) && pdoLate == old(pdoLate)
      ensures bufferInhibitFlag <==> next >= 0 && txArray[next].sync
    {
      hide FullFrom, FlagsUpTo;
      firstCanTxMessage, bufferInhibitFlag := false, false;
      if canTxCount > 0 {
        ghost var before := Flags();
        var i := 0;
        while i < txArray.Length
          invariant 0 <= i <= txArray.Length
          invariant FirstFull(before) == FirstFull(before, i)
        {
          if txArray[i].full {
            TakeOff(i);
            bufferInhibitFlag := txArray[i].sync;
            return i;
          }
          i := i + 1;
        }
        canTxCount := 0;
      }
      return -1;
    }
  }

  /** Of the first `n` buffers exactly the waiting synchronous ones have been emptied, the others are
      as they were. */
  ghost predicate Dropped(before: seq<Buffer>, after: seq<Buffer>, n: nat) {
    && |before| == |after| && n <= |before|
    && (forall i :: 0 <= i < n ==> after[i] == before[i].(full := before[i].full && !before[i].sync))
    && (forall i :: n <= i < |before| ==> after[i] == before[i])
  }

  lemma DroppedStart(before: seq<Buffer>)
    ensures Dropped(before, before, 0)
  {}

  lemma DroppedStep(before: seq<Buffer>, mid: seq<Buffer>, after: seq<Buffer>, i: nat)
    requires Dropped(before, mid, i) && i < |mid|
    requires after == mid[i := mid[i].(full := mid[i].full && !mid[i].sync)]
    ensures Dropped(before, after, i + 1)
    ensures before[i] == mid[i]
  {}

  lemma NothingCounted(count: U16, n: nat)
    ensures CountedOff(count, n, n) == count
  {}

  lemma CountedOneMore(count: U16, n: nat, k: nat)
    requires k > 0
    ensures (CountedOff(count, n, k) + U16_MOD - 1) % U16_MOD == CountedOff(count, n, k - 1)
  {}

  // ----- Overflow -----

  /** 65,536 messages put to wait in one buffer before one goes out: a run of the module that ends with
      the counter at zero and the buffer full. */
  lemma RunToWrap(full: seq<bool>, k: nat) returns (states: seq<Waiting>, events: seq<TxEvent>)
    requires k < |full| && forall i :: 0 <= i < |full| ==> !full[i]
    ensures TxRun(states, events) && states[0] == Waiting(full, 0)
    ensures |events| == U16_MOD && forall j :: 0 <= j < |events| ==> events[j] == Sends(k, false)
    ensures states[U16_MOD].count == 0 && |states[U16_MOD].full| == |full| && states[U16_MOD].full[k]
  {
    states, events := RepeatedSends(full, k, U16_MOD);
  }

  lemma {:induction false} RepeatedSends(full: seq<bool>, k: nat, n: nat)
    returns (states: seq<Waiting>, events: seq<TxEvent>)
    requires k < |full| && forall i :: 0 <= i < |full| ==> !full[i]
    ensures TxRun(states, events) && states[0] == Waiting(full, 0)
    ensures |events| == n && forall j :: 0 <= j < |events| ==> events[j] == Sends(k, false)
    ensures states[n] == if n == 0 then Waiting(full, 0) else Waiting(full[k := true], n % U16_MOD)
  {
    if n == 0 {
      states, events := [Waiting(full, 0)], [];
    } else {
      var s, e := RepeatedSends(full, k, n - 1);
      states, events := s + [Append(s[n - 1], k)], e + [Sends(k, false)];
      forall j | 0 <= j < n
        ensures TxNext(states[j], events[j], states[j + 1])
      {
        assert j < n - 1 ==> TxNext(s[j], e[j], s[j + 1]);
      }
    }
  }

  /** Once the counter has wrapped to zero with a buffer full, no interrupt sends the message any more. */
  lemma WrappedIsStuck(w: Waiting, k: nat, n: nat)
    requires k < |w.full| && w.count == U16_MOD - 1
    ensures After(Append(w, k), n) == Append(w, k) && Append(w, k).full[k]
  {
    StuckAtZero(Append(w, k), n);
  }

  lemma {:induction false} StuckAtZero(w: Waiting, n: nat)
    requires w.count == 0
    ensures After(w, n) == w
  {
    if n > 0 {
      StuckAtZero(w, n - 1);
    }
  }
}
