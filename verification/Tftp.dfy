/** Receiving a file by TFTP (common/eth/tftp_server.c; RFC 1350, sections 2, 4 and 6). */
module Tftp {
  import opened Bytes
  import opened FlashMemory
  import opened Update

  const DATA_LEN_MAX := 512
  const DATA_HDR_LEN := 4
  const DATA_PKT_LEN_MAX := DATA_HDR_LEN + DATA_LEN_MAX
  const BLOCKS := 0x1_0000

  type Packet = p: seq<Byte> | DATA_HDR_LEN <= |p| < 0x1_0000 witness [0, 3, 0, 0]

  /** The block number of a packet, in network order. */
  function BlockNumber(p: Packet): U16 {
    var hi: int, lo: int := p[2], p[3];
    0x100 * hi + lo
  }

  /** The high byte comes first. */
  lemma NetworkOrder(n: U16, data: seq<Byte>)
    requires |data| < 0x1_0000 - DATA_HDR_LEN
    ensures BlockNumber([0, 3, n / 0x100, n % 0x100] + data) == n
    ensures DataOf([0, 3, n / 0x100, n % 0x100] + data) == data
  {}

  function DataOf(p: Packet): seq<Byte> {
    p[DATA_HDR_LEN..]
  }

  /** A call of the write callback; the last one of a transfer carries no data. */
  datatype Call = Call(addr: U32, data: seq<Byte>)

  datatype Phase = OPEN | CLOSED | FAILED

  datatype Receiver = Receiver(block: nat, totBytes: U32, phase: Phase, log: seq<Call>)

  const ACCEPTED := Receiver(0, 0, OPEN, [])

  /** The block that was expected, once the callback has taken its data. */
  function Accept(r: Receiver, data: seq<Byte>): Receiver {
    if data == [] then r.(block := r.block + 1)
    else r.(block := r.block + 1, totBytes := (r.totBytes + |data|) % U32_MOD, log := r.log + [Call(r.totBytes, data)])
  }

  function Refuse(r: Receiver, data: seq<Byte>): Receiver {
    r.(phase := FAILED, log := r.log + [Call(r.totBytes, data)])
  }

  /** The end of the transfer: a last call without data. */
  function Close(r: Receiver): Receiver {
    r.(phase := CLOSED, log := r.log + [Call(r.totBytes, [])])
  }

  /** One packet of an open connection, when the write callback answers `sts`. */
  function OnPacket(r: Receiver, p: Packet, sts: int): Receiver {
    var expected := BlockNumber(p) == r.block + 1;
    var data := DataOf(p);
    if data != [] && expected && sts != 0 then Refuse(r, data)
    else
      var r1 := if expected then Accept(r, data) else r;
      if |p| < DATA_PKT_LEN_MAX then Close(r1) else r1
  }

  /** The acknowledgement that answers the packet. */
  function AckOf(r: Receiver): U16 {
    r.block % BLOCKS
  }

  // ----- The sender's file, in blocks -----

  /** The number of blocks: the last one is shorter than the others, and may be empty. */
  function LastBlock(file: seq<Byte>): nat {
    |file| / DATA_LEN_MAX + 1
  }

  function BlockData(file: seq<Byte>, b: nat): (s: seq<Byte>)
    requires 1 <= b <= LastBlock(file)
    ensures |s| == if b == LastBlock(file) then |file| % DATA_LEN_MAX else DATA_LEN_MAX
  {
    if b == LastBlock(file) then file[DATA_LEN_MAX * (b - 1)..]
    else file[DATA_LEN_MAX * (b - 1)..DATA_LEN_MAX * b]
  }

  function Header(n: U16): (h: Packet)
    ensures |h| == DATA_HDR_LEN && BlockNumber(h) == n && !IsError(h)
  {
    [0, 3, n / 0x100, n % 0x100]
  }

  function DataPacket(file: seq<Byte>, b: nat): (p: Packet)
    requires 1 <= b <= LastBlock(file)
    ensures BlockNumber(p) == b % BLOCKS && DataOf(p) == BlockData(file, b) && !IsError(p)
  {
    Header(b % BLOCKS) + BlockData(file, b)
  }

  /** The first `k` blocks' worth of the file. */
  function Prefix(file: seq<Byte>, k: nat): seq<Byte> {
    if DATA_LEN_MAX * k <= |file| then file[..DATA_LEN_MAX * k] else file
  }

  /** All bytes handed to the write callback, in order. */
  function Contents(log: seq<Call>): seq<Byte> {
    if log == [] then [] else Contents(log[..|log| - 1]) + log[|log| - 1].data
  }

  /** The calls tile the file from its first byte: each begins where the one before ended. */
  ghost predicate Tiling(log: seq<Call>) {
    forall i :: 0 <= i < |log| ==> log[i].addr == |Contents(log[..i])|
  }

  // ----- Aborting -----

  const ERROR_OPCODE: Byte := 5

  /** The opcode of a packet says so; the server does not look at it. */
  predicate IsError(p: Packet) {
    p[1] == ERROR_OPCODE
  }

  /** An ERROR packet: code, message and terminator (RFC 1350, section 5). */
  function ErrorPacket(code: U16, text: seq<Byte>): (p: Packet)
    requires DATA_HDR_LEN + |text| + 1 < 0x1_0000
    ensures IsError(p) && BlockNumber(p) == code && DataOf(p) == text + [0]
  {
    [0, ERROR_OPCODE, code / 0x100, code % 0x100] + text + [0]
  }

  /** An ERROR packet that had an effect on the server, and the connection it met. */
  datatype Stray = Stray(packet: Packet, before: Receiver, sts: int)

  /** What of it is written: its message, when its code is the block number that was expected. */
  function StrayData(x: Stray): seq<Byte> {
    if BlockNumber(x.packet) == x.before.block + 1 then DataOf(x.packet) else []
  }

  // ----- The protocol -----

  /** `current` is the block the sender waits to see acknowledged, 0 its request. The channel keeps all
      that was ever sent: a delivery picks any of it, so packets may be lost, repeated and reordered. */
  datatype System = System(
    receiver: Receiver, current: nat, finished: bool, data: set<Packet>, acks: set<U16>, stray: Option<Stray>)

  const TRANSFER_START := System(ACCEPTED, 0, false, {}, {0}, None)

  datatype TransferEvent =
    | SenderSends
    | SenderAborts(code: U16, text: seq<Byte>)
    | SenderHears(ack: U16)
    | ReceiverHears(packet: Packet, sts: int)

  ghost predicate TransferNext(file: seq<Byte>, s: System, event: TransferEvent, t: System) {
    match event
    case SenderSends =>
      && 1 <= s.current <= LastBlock(file) && !s.finished
      && t == s.(data := s.data + {DataPacket(file, s.current)})
    case SenderAborts(code, text) =>
      && !s.finished && DATA_HDR_LEN + |text| + 1 < 0x1_0000
      && t == s.(finished := true, data := s.data + {ErrorPacket(code, text)})
    case SenderHears(ack) =>
      && ack in s.acks && !s.finished && ack == s.current % BLOCKS
      && t == if s.current == LastBlock(file) then s.(finished := true) else s.(current := s.current + 1)
    case ReceiverHears(packet, sts) =>
      && packet in s.data && s.receiver.phase == OPEN
      && var r := OnPacket(s.receiver, packet, sts);
         t == s.(receiver := r, acks := if r.phase == FAILED then s.acks else s.acks + {AckOf(r)},
                 stray := if IsError(packet) && r != s.receiver then Some(Stray(packet, s.receiver, sts)) else s.stray)
  }

  ghost predicate Reachable(file: seq<Byte>, s: System, steps: nat)
    decreases steps
  {
    if steps == 0 then s == TRANSFER_START
    else exists before, event :: Reachable(file, before, steps - 1) && TransferNext(file, before, event, s)
  }

  // ----- Safety, for every file -----

  const TOP := BLOCKS - 1

  /** A packet the sender has sent so far. */
  ghost predicate Genuine(file: seq<Byte>, current: nat, p: Packet)
    requires current <= LastBlock(file)
  {
    if IsError(p) then DATA_HDR_LEN < |p|
    else exists b: nat :: 1 <= b <= current && p == DataPacket(file, b)
  }

  ghost predicate ChannelInv(file: seq<Byte>, s: System) {
    && s.current <= LastBlock(file)
    && (forall p :: p in s.data ==> Genuine(file, s.current, p)) && OneError(s)
    && (forall n :: n in s.acks ==> n <= s.receiver.block)
    && s.receiver.block <= TOP && s.receiver.block <= s.current
    && (s.current <= TOP ==> s.current <= s.receiver.block + 1)
    && (s.current > TOP ==> s.receiver.block == TOP)
  }

  /** The sender aborts once, and then falls silent. */
  ghost predicate OneError(s: System) {
    && (forall p :: p in s.data && IsError(p) ==> s.finished)
    && forall p, q :: p in s.data && q in s.data && IsError(p) && IsError(q) ==> p == q
  }

  /** The receiver's calls tile a prefix of the file; in a failed transfer the last one was refused. */
  ghost predicate LogInv(file: seq<Byte>, r: Receiver) {
    && Tiling(r.log)
    && match r.phase
       case OPEN => OpenLog(file, r)
       case CLOSED =>
         && r.block == (if LastBlock(file) <= TOP then LastBlock(file) else TOP)
         && Contents(r.log) == Prefix(file, r.block)
         && r.log != [] && AllData(r.log[..|r.log| - 1])
         && r.log[|r.log| - 1].data == [] && r.log[|r.log| - 1].addr == |Prefix(file, r.block)|
       case FAILED =>
         r.block < LastBlock(file) && Contents(r.log) == Prefix(file, r.block + 1) && AllData(r.log)
  }

  ghost predicate OpenLog(file: seq<Byte>, r: Receiver) {
    InProgress(file, r) && r.block < LastBlock(file)
  }

  lemma LogWhenOpen(file: seq<Byte>, r: Receiver)
    requires r.phase == OPEN
    ensures LogInv(file, r) <==> OpenLog(file, r)
  {
    hide Contents, Prefix, Tiling, LastBlock, AllData;
  }

  /** `block` blocks of the file have been passed on, each with data. */
  ghost predicate InProgress(file: seq<Byte>, r: Receiver) {
    && Tiling(r.log) && AllData(r.log)
    && Contents(r.log) == Prefix(file, r.block) && r.totBytes == |Contents(r.log)|
  }

  ghost predicate AllData(log: seq<Call>) {
    forall i :: 0 <= i < |log| ==> log[i].data != []
  }

  /** A packet the receiver expects is the next block of the file. */
  lemma Expected(file: seq<Byte>, s: System, p: Packet)
    requires ChannelInv(file, s) && p in s.data && !IsError(p)
    ensures BlockNumber(p) == s.receiver.block + 1 ==>
              s.receiver.block < s.current <= LastBlock(file) && p == DataPacket(file, s.receiver.block + 1)
    ensures |p| < DATA_PKT_LEN_MAX && BlockNumber(p) != s.receiver.block + 1 && s.receiver.block < LastBlock(file) ==>
              s.receiver.block == TOP && LastBlock(file) > TOP
  {
    hide DataPacket, LastBlock, BlockNumber, IsError;
    assert Genuine(file, s.current, p);
    var b: nat :| 1 <= b <= s.current && p == DataPacket(file, b);
    assert BlockNumber(p) == b % BLOCKS;
    PacketLength(file, b);
    SmallNumber(b);
  }

  lemma PacketLength(file: seq<Byte>, b: nat)
    requires 1 <= b <= LastBlock(file)
    ensures |DataPacket(file, b)| < DATA_PKT_LEN_MAX <==> b == LastBlock(file)
  {}

  lemma SmallNumber(b: nat)
    ensures b <= TOP ==> b % BLOCKS == b
    ensures b % BLOCKS <= TOP
  {}

  lemma CallMade(log: seq<Call>, call: Call)
    requires Tiling(log) && call.addr == |Contents(log)|
    ensures Tiling(log + [call]) && Contents(log + [call]) == Contents(log) + call.data
  {
    var more := log + [call];
    assert more[..|log|] == log;
    forall i | 0 <= i < |more|
      ensures more[i].addr == |Contents(more[..i])|
    {
      assert i < |log| ==> more[..i] == log[..i];
    }
  }

  lemma PrefixStep(file: seq<Byte>, k: nat)
    requires k < LastBlock(file)
    ensures Prefix(file, k + 1) == Prefix(file, k) + BlockData(file, k + 1)
    ensures |Prefix(file, k)| == DATA_LEN_MAX * k
    ensures BlockData(file, k + 1) == [] ==> k + 1 == LastBlock(file)
  {}

  lemma WholePrefix(file: seq<Byte>)
    ensures Prefix(file, LastBlock(file)) == file
    ensures LastBlock(file) > TOP ==> (Prefix(file, TOP) == file <==> |file| <= DATA_LEN_MAX * TOP)
  {
    if LastBlock(file) > TOP {
      assert |Prefix(file, TOP)| == DATA_LEN_MAX * TOP <= |file|;
      if |file| == DATA_LEN_MAX * TOP {
        assert file[..|file|] == file;
      }
    }
  }

  lemma AcceptKeeps(file: seq<Byte>, r: Receiver)
    requires InProgress(file, r) && r.block < LastBlock(file) && r.block < TOP
    ensures InProgress(file, Accept(r, BlockData(file, r.block + 1)))
  {
    hide Prefix, BlockData, Contents, Tiling, LastBlock, AllData;
    var data := BlockData(file, r.block + 1);
    PrefixStep(file, r.block);
    if data == [] {
      assert Prefix(file, r.block) + data == Prefix(file, r.block);
    } else {
      CallMade(r.log, Call(r.totBytes, data));
      MoreData(r.log, Call(r.totBytes, data));
    }
  }

  lemma RefusedLog(file: seq<Byte>, r: Receiver)
    requires OpenLog(file, r) && BlockData(file, r.block + 1) != []
    ensures LogInv(file, Refuse(r, BlockData(file, r.block + 1)))
  {
    hide Prefix, BlockData, Contents, Tiling, LastBlock, AllData;
    var call := Call(r.totBytes, BlockData(file, r.block + 1));
    PrefixStep(file, r.block);
    CallMade(r.log, call);
    MoreData(r.log, call);
  }

  lemma ClosedLog(file: seq<Byte>, r: Receiver)
    requires InProgress(file, r) && r.block == if LastBlock(file) <= TOP then LastBlock(file) else TOP
    ensures LogInv(file, Close(r))
  {
    hide Prefix, Contents, Tiling, LastBlock, AllData;
    LastCall(r.log, r.totBytes);
  }

  lemma LogKeeps(file: seq<Byte>, s: System, p: Packet, sts: int)
    requires ChannelInv(file, s) && LogInv(file, s.receiver) && p in s.data && !IsError(p) && s.receiver.phase == OPEN
    ensures LogInv(file, OnPacket(s.receiver, p, sts))
  {
    hide DataPacket, BlockData, InProgress, BlockNumber, LastBlock, LogInv, DataOf;
    var r, data := s.receiver, DataOf(p);
    LogWhenOpen(file, r);
    Expected(file, s, p);
    var r1 := r;
    if BlockNumber(p) == r.block + 1 {
      PacketLength(file, r.block + 1);
      if data != [] && sts != 0 {
        RefusedLog(file, r);
        return;
      }
      AcceptKeeps(file, r);
      r1 := Accept(r, data);
    }
    LogWhenOpen(file, r1);
    if |p| < DATA_PKT_LEN_MAX {
      ClosedLog(file, r1);
    }
  }

  lemma MoreData(log: seq<Call>, call: Call)
    requires AllData(log) && call.data != []
    ensures AllData(log + [call])
  {}

  lemma LastCall(log: seq<Call>, addr: U32)
    requires Tiling(log) && addr == |Contents(log)|
    ensures var more := log + [Call(addr, [])];
            Tiling(more) && Contents(more) == Contents(log) && more[..|more| - 1] == log
  {
    CallMade(log, Call(addr, []));
  }

  lemma ChannelKeeps(file: seq<Byte>, s: System, event: TransferEvent, t: System)
    requires ChannelInv(file, s) && TransferNext(file, s, event, t)
    requires t.receiver.phase == OPEN && t.stray == s.stray == None
    ensures ChannelInv(file, t)
  {
    hide DataPacket, BlockNumber, DataOf, IsError, Genuine, LastBlock;
    match event
    case SenderSends =>
      SentIsGenuine(file, s.current);
    case SenderAborts(code, text) =>
      assert t.data == s.data + {ErrorPacket(code, text)};
      ErrorsAreGenuine(file, s.current);
    case SenderHears(ack) =>
      StaysGenuine(file, s.current, t.current);
    case ReceiverHears(packet, sts) =>
      if !IsError(packet) {
        Expected(file, s, packet);
      }
  }

  lemma SentIsGenuine(file: seq<Byte>, b: nat)
    requires 1 <= b <= LastBlock(file)
    ensures Genuine(file, b, DataPacket(file, b))
  {
    assert DataPacket(file, b)[1] == 3;
  }

  lemma ErrorsAreGenuine(file: seq<Byte>, current: nat)
    requires current <= LastBlock(file)
    ensures forall p: Packet :: IsError(p) && DATA_HDR_LEN < |p| ==> Genuine(file, current, p)
  {}

  lemma StaysGenuine(file: seq<Byte>, current: nat, more: nat)
    requires current <= more <= LastBlock(file)
    ensures forall p: Packet :: Genuine(file, current, p) ==> Genuine(file, more, p)
  {}

  /** The connection before a stray packet, what it did to it, and the close that may have followed. */
  ghost predicate AfterStray(file: seq<Byte>, r: Receiver, x: Stray) {
    && IsError(x.packet) && DATA_HDR_LEN < |x.packet|
    && x.before.phase == OPEN && x.before.block <= TOP && OpenLog(file, x.before)
    && var r1 := OnPacket(x.before, x.packet, x.sts);
       r1 != x.before && (r == r1 || (r1.phase == OPEN && r == Close(r1)))
  }

  /** A connection that a long ERROR packet has left open takes no more data. */
  ghost predicate Quiet(s: System) {
    && s.finished
    && forall p :: p in s.data ==>
         BlockNumber(p) != s.receiver.block + 1 && (IsError(p) ==> |p| >= DATA_PKT_LEN_MAX)
  }

  ghost predicate SystemInv(file: seq<Byte>, s: System) {
    match s.stray
    case None => LogInv(file, s.receiver) && (s.receiver.phase == OPEN ==> ChannelInv(file, s))
    case Some(x) => AfterStray(file, s.receiver, x) && (s.receiver.phase == OPEN ==> Quiet(s))
  }

  /** An ERROR packet that leaves the connection open either has no effect or is the block that was
      expected; then no other block is. */
  lemma ErrorIsLast(file: seq<Byte>, s: System, p: Packet, sts: int)
    requires ChannelInv(file, s) && p in s.data && IsError(p) && s.receiver.phase == OPEN
    requires OnPacket(s.receiver, p, sts) != s.receiver && OnPacket(s.receiver, p, sts).phase == OPEN
    ensures Quiet(s.(receiver := OnPacket(s.receiver, p, sts)))
  {
    hide LastBlock, DataPacket, BlockNumber, IsError;
    forall q | q in s.data
      ensures BlockNumber(q) != s.receiver.block + 2 && (IsError(q) ==> |q| >= DATA_PKT_LEN_MAX)
    {
      assert Genuine(file, s.current, q);
      if !IsError(q) {
        var b: nat :| 1 <= b <= s.current && q == DataPacket(file, b);
        SmallNumber(b);
      }
    }
  }

  lemma SystemKeeps(file: seq<Byte>, s: System, event: TransferEvent, t: System)
    requires SystemInv(file, s) && TransferNext(file, s, event, t)
    ensures SystemInv(file, t)
  {
    hide ChannelInv, LogInv, OpenLog, OnPacket, IsError, DataPacket, ErrorPacket, LastBlock;
    if t.receiver.phase == OPEN && t.stray == s.stray == None {
      ChannelKeeps(file, s, event, t);
    }
    match event
    case ReceiverHears(packet, sts) =>
      if s.stray.Some? {
        QuietHears(s.receiver, packet, sts);
      } else if IsError(packet) {
        LogWhenOpen(file, s.receiver);
        ChannelFacts(file, s, packet);
        if t.stray.Some? && t.receiver.phase == OPEN {
          ErrorIsLast(file, s, packet, sts);
        }
      } else {
        LogKeeps(file, s, packet, sts);
      }
    case _ =>
  }

  lemma QuietHears(r: Receiver, p: Packet, sts: int)
    requires BlockNumber(p) != r.block + 1
    ensures OnPacket(r, p, sts) == if |p| < DATA_PKT_LEN_MAX then Close(r) else r
  {}

  lemma ChannelFacts(file: seq<Byte>, s: System, p: Packet)
    requires ChannelInv(file, s) && p in s.data && IsError(p)
    ensures s.receiver.block <= TOP && DATA_HDR_LEN < |p|
  {
    hide LastBlock, DataPacket;
    assert Genuine(file, s.current, p);
  }

  lemma {:induction false} Invariant(file: seq<Byte>, s: System, steps: nat)
    requires Reachable(file, s, steps)
    ensures SystemInv(file, s)
    decreases steps
  {
    hide SystemInv, TransferNext;
    if steps == 0 {
      StartInv(file);
    } else {
      var before, event :| Reachable(file, before, steps - 1) && TransferNext(file, before, event, s);
      Invariant(file, before, steps - 1);
      SystemKeeps(file, before, event, s);
    }
  }

  lemma StartInv(file: seq<Byte>)
    ensures SystemInv(file, TRANSFER_START)
  {}

  /** What a stray packet leaves behind: its message may follow the prefix of the file. */
  lemma StrayContents(file: seq<Byte>, r: Receiver, x: Stray)
    requires AfterStray(file, r, x)
    ensures Tiling(r.log) && Contents(r.log) == Prefix(file, x.before.block) + StrayData(x)
    ensures r.phase == CLOSED ==>
              r.log != [] && AllData(r.log[..|r.log| - 1])
              && r.log[|r.log| - 1].data == [] && r.log[|r.log| - 1].addr == |Contents(r.log)|
  {
    hide Prefix, Contents, Tiling, LastBlock, BlockNumber, DataOf, AllData;
    var b, data := x.before, DataOf(x.packet);
    PrefixShort(file, b.block);
    DataLength(x.packet);
    var call := Call(b.totBytes, data);
    CallMade(b.log, call);
    MoreData(b.log, call);
    LastCall(b.log, b.totBytes);
    LastCall(b.log + [call], b.totBytes + |data|);
    assert Prefix(file, b.block) + [] == Prefix(file, b.block);
  }

  lemma PrefixShort(file: seq<Byte>, k: nat)
    requires k <= TOP
    ensures |Prefix(file, k)| <= DATA_LEN_MAX * TOP
  {}

  lemma DataLength(p: Packet)
    ensures |DataOf(p)| == |p| - DATA_HDR_LEN
  {}

  /** In every reachable state what was passed to the write callback tiles a prefix of the file, which
      at most the message of an ERROR packet follows. */
  lemma TransferSafe(file: seq<Byte>, s: System, steps: nat)
    requires Reachable(file, s, steps)
    ensures Tiling(s.receiver.log)
    ensures s.stray == None ==> LogInv(file, s.receiver)
    ensures s.stray.Some? ==>
              var x := s.stray.value;
              && IsError(x.packet) && x.packet in s.data
              && (s.receiver.phase == OPEN ==> |x.packet| >= DATA_PKT_LEN_MAX)
              && Contents(s.receiver.log) == Prefix(file, x.before.block) + StrayData(x)
  {
    hide Reachable, Contents, Tiling, Prefix, LastBlock, ChannelInv, OnPacket, IsError;
    Invariant(file, s, steps);
    if s.stray.Some? {
      StrayWasSent(file, s, steps);
      StrayContents(file, s.receiver, s.stray.value);
    }
  }

  lemma {:induction false} StrayWasSent(file: seq<Byte>, s: System, steps: nat)
    requires Reachable(file, s, steps)
    ensures s.stray.Some? ==> s.stray.value.packet in s.data
    decreases steps
  {
    hide DataPacket, ErrorPacket, OnPacket;
    if steps > 0 {
      var before, event :| Reachable(file, before, steps - 1) && TransferNext(file, before, event, s);
      StrayWasSent(file, before, steps - 1);
    }
  }

  /** The file has been delivered whole, followed by exactly one call without data, at its end. */
  ghost predicate Delivered(file: seq<Byte>, r: Receiver) {
    && Tiling(r.log) && Contents(r.log) == file
    && r.log != [] && AllData(r.log[..|r.log| - 1])
    && r.log[|r.log| - 1].data == [] && r.log[|r.log| - 1].addr == |file|
  }

  /** A normal close means that the whole file was delivered: without a stray packet, exactly for files
      whose data the 16-bit block numbers can carry; with one, exactly when its code was the number of
      the block that was expected and its message the rest of the file, or else no data was missing. */
  lemma CloseIsDelivery(file: seq<Byte>, s: System, steps: nat)
    requires Reachable(file, s, steps) && s.receiver.phase == CLOSED
    ensures s.stray == None ==> (Delivered(file, s.receiver) <==> |file| <= DATA_LEN_MAX * TOP)
    ensures s.stray.Some? ==>
              var packet, k := s.stray.value.packet, s.stray.value.before.block;
              && DATA_LEN_MAX * k <= |file|
              && (Delivered(file, s.receiver) <==>
                    if BlockNumber(packet) == k + 1 then DataOf(packet) == file[DATA_LEN_MAX * k..]
                    else |file| == DATA_LEN_MAX * k)
  {
    hide Prefix, Contents, Tiling, Reachable, OnPacket, AllData, BlockNumber, DataOf;
    Invariant(file, s, steps);
    WholePrefix(file);
    if s.stray.Some? {
      StrayContents(file, s.receiver, s.stray.value);
      StrayRest(file, s.stray.value.before.block, StrayData(s.stray.value));
    }
  }

  lemma StrayRest(file: seq<Byte>, k: nat, data: seq<Byte>)
    requires k < LastBlock(file)
    ensures DATA_LEN_MAX * k <= |file|
    ensures Prefix(file, k) + data == file <==> data == file[DATA_LEN_MAX * k..]
  {
    assert Prefix(file, k) + file[DATA_LEN_MAX * k..] == file;
    assert (Prefix(file, k) + data)[DATA_LEN_MAX * k..] == data;
  }

  /** A sender that aborts makes the server close normally: every file has a run in which a close is
      not a delivery. */
  lemma AbortCloses(file: seq<Byte>) returns (s: System, steps: nat)
    ensures Reachable(file, s, steps) && s.receiver.phase == CLOSED && !Delivered(file, s.receiver)
  {
    hide Reachable, ErrorPacket, Prefix, Contents;
    ReachStart(file);
    var code := if file == [] then 1 else 0;
    var p := ErrorPacket(code, []);
    var aborted := TRANSFER_START.(finished := true, data := TRANSFER_START.data + {p});
    Reach(file, TRANSFER_START, 0, SenderAborts(code, []), aborted);
    s, steps := Hear(file, aborted, 1, p);
    CloseIsDelivery(file, s, steps);
    NoBlocks(file);
  }

  lemma NoBlocks(file: seq<Byte>)
    ensures Prefix(file, 0) == []
  {}

  // ----- A run to the close exists for every file -----

  lemma Reach(file: seq<Byte>, s: System, steps: nat, event: TransferEvent, t: System)
    requires Reachable(file, s, steps) && TransferNext(file, s, event, t)
    ensures Reachable(file, t, steps + 1)
  {}

  /** The sender and the receiver agree on `k` blocks and nothing was lost. */
  ghost predicate InStep(file: seq<Byte>, s: System, k: nat) {
    && s.receiver.phase == OPEN && s.receiver.block == s.current == k && !s.finished && s.stray == None
    && forall n :: 0 <= n <= k ==> n in s.acks
  }

  lemma {:induction false} ReachBlock(file: seq<Byte>, k: nat) returns (s: System, steps: nat)
    requires k < LastBlock(file) && k <= TOP
    ensures Reachable(file, s, steps) && InStep(file, s, k)
  {
    hide DataPacket, Reachable, BlockData;
    if k == 0 {
      s, steps := TRANSFER_START, 0;
      ReachStart(file);
    } else {
      s, steps := ReachBlock(file, k - 1);
      s, steps := Exchange(file, s, steps, k - 1);
    }
  }

  lemma ReachStart(file: seq<Byte>)
    ensures Reachable(file, TRANSFER_START, 0)
  {}

  /** The sender hears the acknowledgement it waits for and sends the next block. */
  lemma Advance(file: seq<Byte>, s: System, steps: nat) returns (t: System, more: nat)
    requires Reachable(file, s, steps) && s.current < LastBlock(file) && !s.finished && s.current % BLOCKS in s.acks
    ensures Reachable(file, t, more) && t == s.(current := s.current + 1, data := t.data)
    ensures DataPacket(file, t.current) in t.data
  {
    hide DataPacket, Reachable;
    var heard := s.(current := s.current + 1);
    Reach(file, s, steps, SenderHears(s.current % BLOCKS), heard);
    t, more := heard.(data := heard.data + {DataPacket(file, heard.current)}), steps + 2;
    Reach(file, heard, steps + 1, SenderSends, t);
  }

  lemma Hear(file: seq<Byte>, s: System, steps: nat, p: Packet) returns (t: System, more: nat)
    requires Reachable(file, s, steps) && s.receiver.phase == OPEN && p in s.data
    ensures Reachable(file, t, more)
    ensures var r := OnPacket(s.receiver, p, 0);
            t == s.(receiver := r, acks := s.acks + {AckOf(r)},
                    stray := if IsError(p) && r != s.receiver then Some(Stray(p, s.receiver, 0)) else s.stray)
  {
    hide Reachable;
    var r := OnPacket(s.receiver, p, 0);
    t, more := s.(receiver := r, acks := s.acks + {AckOf(r)},
                  stray := if IsError(p) && r != s.receiver then Some(Stray(p, s.receiver, 0)) else s.stray), steps + 1;
    Reach(file, s, steps, ReceiverHears(p, 0), t);
  }

  lemma Exchange(file: seq<Byte>, s: System, steps: nat, k: nat) returns (t: System, more: nat)
    requires Reachable(file, s, steps) && InStep(file, s, k) && k + 1 < LastBlock(file) && k < TOP
    ensures Reachable(file, t, more) && InStep(file, t, k + 1)
  {
    hide DataPacket, Reachable, BlockData;
    t, more := Advance(file, s, steps);
    var p := DataPacket(file, k + 1);
    assert |p| == DATA_HDR_LEN + |DataOf(p)| == DATA_PKT_LEN_MAX;
    t, more := Hear(file, t, more, p);
  }

  /** With every number acknowledged once, stale acknowledgements take the sender to its last block. */
  lemma {:induction false} ReachLast(file: seq<Byte>, s: System, steps: nat) returns (t: System, more: nat)
    requires Reachable(file, s, steps) && s.receiver.phase == OPEN && !s.finished && s.current < LastBlock(file)
    requires s.stray == None
    requires (s.current + 1 == LastBlock(file) && s.current in s.acks) || forall n: U16 :: n in s.acks
    ensures Reachable(file, t, more) && t.receiver == s.receiver && DataPacket(file, LastBlock(file)) in t.data
    ensures t.stray == None
    decreases LastBlock(file) - s.current
  {
    hide DataPacket, Reachable, BlockData;
    t, more := Advance(file, s, steps);
    if t.current < LastBlock(file) {
      t, more := ReachLast(file, t, more);
    }
  }

  /** Every file has a run without a stray packet that closes, so the condition of `CloseIsDelivery`
      is exact. */
  lemma CloseIsReachable(file: seq<Byte>) returns (s: System, steps: nat)
    ensures Reachable(file, s, steps) && s.receiver.phase == CLOSED && s.stray == None
  {
    hide DataPacket, Reachable, BlockData;
    var last := LastBlock(file);
    var k := if last <= TOP then last - 1 else TOP;
    s, steps := ReachBlock(file, k);
    s, steps := ReachLast(file, s, steps);
    var p := DataPacket(file, last);
    assert |p| == DATA_HDR_LEN + |DataOf(p)| < DATA_PKT_LEN_MAX;
    s, steps := Hear(file, s, steps, p);
  }

  /** A long ERROR packet is taken for a full block and leaves the connection open: in this run its message
      takes the place of the last block, and a late copy of that block then closes the connection. */
  lemma LongAbortCloses(file: seq<Byte>) returns (s: System, steps: nat)
    requires LastBlock(file) <= TOP
    ensures Reachable(file, s, steps) && s.receiver.phase == CLOSED && !Delivered(file, s.receiver)
    ensures s.stray.Some? && |s.stray.value.packet| >= DATA_PKT_LEN_MAX
  {
    hide DataPacket, ErrorPacket, Reachable, BlockData, Contents, Prefix;
    var last := LastBlock(file);
    s, steps := ReachBlock(file, last - 1);
    s, steps := Advance(file, s, steps);
    var p, e := DataPacket(file, last), ErrorPacket(last, Zeros(DATA_LEN_MAX));
    assert |e| == DATA_HDR_LEN + |DataOf(e)| && |p| == DATA_HDR_LEN + |DataOf(p)|;
    var aborted := s.(finished := true, data := s.data + {e});
    Reach(file, s, steps, SenderAborts(last, Zeros(DATA_LEN_MAX)), aborted);
    s, steps := Hear(file, aborted, steps + 1, e);
    s, steps := Hear(file, s, steps, p);
    CloseIsDelivery(file, s, steps);
  }

  // ----- The server -----

  /** A connection that receives a file for the firmware callbacks. */
  class Connection {
    const server: FileServer
    var block: nat
    var totBytes: U32
    var phase: Phase
    ghost var log: seq<Call>

    ghost function State(): Receiver
      reads this
    {
      Receiver(block, totBytes, phase, log)
    }

    /** Until a write fails the flash holds what was passed to the callback. */
    ghost predicate Valid()
      reads this, server, server.flash
    {
      && server.Linked() && server.flash.Valid()
      && totBytes <= server.own.end - server.own.start
      && (phase != FAILED ==> server.Receiving() && server.received == Contents(log))
      && (phase == OPEN ==> totBytes == |Contents(log)|)
    }

    /** The part of `tftp_process_write` after the file name has been accepted: acknowledges block 0. */
    constructor (server: FileServer)
      requires server.Linked() && server.Receiving() && server.received == []
      ensures Valid() && State() == ACCEPTED && this.server == server
    {
      this.server := server;
      block, totBytes, phase, log := 0, 0, OPEN, [];
    }

    /** `wrq_recv_callback`; `sts` is what the write callback answered. A failed write ends the
        connection. */
    method Receive(p: Packet) returns (ack: Option<U16>, ghost sts: int)
      requires Valid() && phase == OPEN
      modifies this`block, this`totBytes, this`phase, this`log
      modifies server`received, server.flash`cells, server.flash`erased, server.flash`ops
      modifies server.crc, server.preldr, server.ldr, server.app
      ensures Valid()
      ensures State() == OnPacket(old(State()), p, sts)
      ensures ack == if phase == FAILED then None else Some(AckOf(State()))
      ensures old(server.flash.ops) <= server.flash.ops
      ensures DataOf(p) != [] && BlockNumber(p) == old(block) + 1 ==>
                (sts == 0 <==> old(totBytes) + |DataOf(p)| <= server.own.end - server.own.start
                               && NoFaults(server.flash.ops[|old(server.flash.ops)|..]))
      ensures AllWithin(server.own, server.flash.ops[|old(server.flash.ops)|..])
    {
      hide Valid, AllWithin, BlockNumber, NoFaults;
      sts := 0;
      var data := DataOf(p);
      ghost var start := server.flash.ops;
      NothingWithin(server.own);
      assert start[|start|..] == [];
      if |p| > DATA_HDR_LEN && BlockNumber(p) == block + 1 {
        sts := Accept(data);
        if phase == FAILED {
          return None, sts;
        }
      } else if BlockNumber(p) == block + 1 {
        CountBlock();
      }
      ack := Some(block % BLOCKS);
      if |p| < DATA_PKT_LEN_MAX {
        Finish();
      }
    }

    method Accept(data: seq<Byte>) returns (sts: int)
      requires Valid() && phase == OPEN && 0 < |data| < 0x1_0000
      modifies this`block, this`totBytes, this`phase, this`log
      modifies server`received, server.flash`cells, server.flash`erased, server.flash`ops
      modifies server.crc, server.preldr, server.ldr, server.app
      ensures Valid()
      ensures log == old(log) + [Call(old(totBytes), data)]
      ensures sts != 0 ==> phase == FAILED && block == old(block) && totBytes == old(totBytes)
      ensures sts == 0 ==> phase == OPEN && block == old(block) + 1 && totBytes == (old(totBytes) + |data|) % U32_MOD
      ensures old(server.flash.ops) <= server.flash.ops
      ensures sts == 0 <==> old(totBytes) + |data| <= server.own.end - server.own.start
                            && NoFaults(server.flash.ops[|old(server.flash.ops)|..])
      ensures AllWithin(server.own, server.flash.ops[|old(server.flash.ops)|..])
    {
      hide Contents, FileServer.Receiving, Flash.Valid, AllWithin, LockCode, NoFaults;
      ContentsMore(log, Call(totBytes, data));
      log := log + [Call(totBytes, data)];
      sts := server.WriteCallback(totBytes, data);
      if sts != 0 {
        phase := FAILED;
        return;
      }
      block := block + 1;
      totBytes := totBytes + |data|;
    }

    /** A block without data. */
    method CountBlock()
      requires Valid()
      modifies this`block
      ensures Valid() && block == old(block) + 1
    {
      block := block + 1;
    }

    /** The last call, whose answer is not looked at. */
    method Finish()
      requires Valid() && phase == OPEN
      modifies this`phase, this`log
      modifies server`received, server.flash`cells, server.flash`erased, server.flash`ops
      modifies server.crc, server.preldr, server.ldr, server.app
      ensures Valid() && phase == CLOSED && log == old(log) + [Call(totBytes, [])]
      ensures server.flash.ops == old(server.flash.ops)
    {
      hide Contents, FileServer.Receiving, FileServer.Linked, Flash.Valid, AllWithin, LockCode, OnBus;
      var sts := server.WriteCallback(totBytes, []);
      ContentsMore(log, Call(totBytes, []));
      log := log + [Call(totBytes, [])];
      phase := CLOSED;
    }
  }

  lemma ContentsMore(log: seq<Call>, call: Call)
    ensures Contents(log + [call]) == Contents(log) + call.data
    ensures call.data == [] ==> Contents(log + [call]) == Contents(log)
  {
    assert (log + [call])[..|log|] == log;
  }
}
