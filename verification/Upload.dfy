/** An upload from the first packet to the verdict: the transfer, the flash and the locks together. */
module Upload {
  import opened Bytes
  import EndToEnd
  import opened FlashMemory
  import opened FwFields
  import opened FwHeader
  import opened FwImages
  import opened Layout
  import opened Sign
  import opened SignTheorems
  import opened Tftp
  import opened Update

  // ----- The server's code takes part in the protocol -----

  /** One packet, delivered to a connection that is where the receiver of the protocol is: it stays there,
      and its acknowledgement is on the way to the sender. */
  method Deliver(c: Connection, p: Packet, ghost file: seq<Byte>, ghost s: System, ghost steps: nat)
    returns (ack: Option<U16>, ghost t: System)
    requires c.Valid() && c.phase == OPEN && c.State() == s.receiver
    requires Reachable(file, s, steps) && p in s.data
    modifies c`block, c`totBytes, c`phase, c`log
    modifies c.server`received, c.server.flash`cells, c.server.flash`erased, c.server.flash`ops
    modifies c.server.crc, c.server.preldr, c.server.ldr, c.server.app
    ensures c.Valid() && c.State() == t.receiver && Reachable(file, t, steps + 1)
    ensures t.acks == s.acks + if ack.Some? then {ack.value} else {}
  {
    hide Reachable, OnPacket, Connection.Valid, AllWithin, BlockNumber;
    ghost var sts;
    ack, sts := c.Receive(p);
    ghost var r := OnPacket(s.receiver, p, sts);
    t := s.(receiver := r, acks := if r.phase == FAILED then s.acks else s.acks + {AckOf(r)},
            stray := if IsError(p) && r != s.receiver then Some(Stray(p, s.receiver, sts)) else s.stray);
    Reach(file, s, steps, ReceiverHears(p, sts), t);
  }

  // ----- What a closed transfer leaves behind -----

  /** The lock of the image in a region. */
  function OwnLock(m: Bus, own: Region): Lock {
    if own == LDR_REGION then LdrLock(m) else AppLock(m)
  }

  function OwnName(own: Region): seq<Byte> {
    if own == LDR_REGION then LDR_NAME else APP_NAME
  }

  /** A signed image whose upload closed without an ERROR packet from the sender was delivered whole; and
      once it was, it lies in the region, nothing outside the region has changed since the upload was
      accepted, and the image is unlocked exactly if it was signed for this gateway and place. */
  lemma ClosedUpload(c: Connection, file: seq<Byte>, args: seq<seq<Byte>>, limit: int, s: System, steps: nat)
    requires Arguments(args) && Representable(file, args) && SignSpec(file, args, limit).Signed?
    requires c.Valid() && c.phase == CLOSED && limit <= c.server.own.end - c.server.own.start
    requires Reachable(SignSpec(file, args, limit).image, s, steps) && s.receiver == c.State()
    ensures FirstBad(args) == |args|
    ensures s.stray == None ==> Delivered(SignSpec(file, args, limit).image, c.State())
    ensures Delivered(SignSpec(file, args, limit).image, c.State()) ==>
              var own, m := c.server.own, OnBus(c.server.flash.cells, c.server.tail);
              && Placed(m, own.start, SignSpec(file, args, limit).image)
              && (forall a: Addr :: !(own.start <= a < own.end) ==> At(c.server.flash.cells, a) == At(c.server.base, a))
              && (OwnLock(m, own) == NONE <==>
                    && Fits(|ZeroPadded(file)|, args, MaxSize(own.start))
                    && FirstValue(args, PROD).Some? && FirstValue(args, PROD_NAME) == Some(OwnName(own))
                    && (RegionOk(m, PRELDR_START) ==> Field(m, PRELDR_START, PROD) == FirstValue(args, PROD)))
  {
    hide SignSpec, Representable, Arguments, Reachable, Describes, ZeroPadded, FirstValue, Fits, RegionOk, Field,
         ImageLock, Written, OnBus, Region.Wf, Contents, Tiling, Contained, Placed;
    SignedDescribes(file, args, limit);
    var image, own, base := SignSpec(file, args, limit).image, c.server.own, c.server.base;
    EndToEnd.RegionFacts(own);
    CloseIsDelivery(image, s, steps);
    if Delivered(image, c.State()) {
      EndToEnd.SignedUpdate(file, args, limit, base, c.server.tail, own, OwnName(own));
      EndToEnd.ReceivedIsPlaced(base, c.server.tail, own, image);
      OutsideKept(base, own, image);
      OwnLockIs(OnBus(c.server.flash.cells, c.server.tail), own);
    }
  }

  lemma OwnLockIs(m: Bus, own: Region)
    requires own.Wf()
    ensures OwnLock(m, own) == ImageLock(m, own.start, OwnName(own))
  {
    hide ImageLock;
  }

  /** Writing into a region changes nothing outside it. */
  lemma OutsideKept(base: Cells, region: Region, data: seq<Byte>)
    requires region.Wf() && |data| <= region.end - region.start
    ensures forall a: Addr :: !(region.start <= a < region.end) ==>
              At(Written(base, NotErased(), region.start, data), a) == At(base, a)
  {
    forall a: Addr | !(region.start <= a < region.end)
      ensures !Desc(SectorOf(a)).Meets(region.start, |data|)
    {
      SectorsPartition(a, SectorOf(a));
    }
  }

  // ----- The answer to the last call -----

  lemma LockCodeInjective(a: Lock, b: Lock)
    ensures LockCode(a) == LockCode(b) <==> a == b
  {}

  /** The write callbacks answer the last call with the lock of the loader. That is the lock of the image
      that was received exactly if it is the loader, or the two happen to have the same lock. */
  lemma AnswerIsOwn(m: Bus, own: Region)
    requires own.Wf()
    ensures LockCode(LdrLock(m)) == LockCode(OwnLock(m, own)) <==> own == LDR_REGION || LdrLock(m) == AppLock(m)
  {
    hide LdrLock, AppLock, LockCode;
    LockCodeInjective(LdrLock(m), OwnLock(m, own));
  }

  /** What a running loader answers after it has received an application does not depend on what it received:
      it is 0, and so it is the lock of the application exactly if the application is unlocked. */
  lemma AnswerOfLoader(base: Cells, tail: Tail, received: seq<Byte>)
    requires GoodLoader(OnBus(base, tail)) && |received| <= APP_END - APP_START
    ensures var m := OnBus(Written(base, NotErased(), APP_START, received), tail);
            && LockCode(LdrLock(m)) == 0
            && (LockCode(LdrLock(m)) == LockCode(OwnLock(m, APP_REGION)) <==> AppLock(m) == NONE)
  {
    hide ImageLock, RegionOk, Contained, Written, OnBus, Agree;
    var before, m := OnBus(base, tail), OnBus(Written(base, NotErased(), APP_START, received), tail);
    BelowAgrees(base, tail, received, PRELDR_START, PRELDR_END);
    BelowAgrees(base, tail, received, LDR_START, LDR_END);
    ImageLockIsLocal(before, m, LDR_START, LDR_END, LDR_NAME);
    AnswerIsOwn(m, APP_REGION);
  }

  lemma BelowAgrees(base: Cells, tail: Tail, received: seq<Byte>, from: int, to: int)
    requires |received| <= APP_END - APP_START && FLASH_START <= from <= to <= APP_START
    ensures Agree(OnBus(base, tail), OnBus(Written(base, NotErased(), APP_START, received), tail), from, to)
  {
    hide Written;
    OutsideKept(base, APP_REGION, received);
    var cells := Written(base, NotErased(), APP_START, received);
    var m, n, f, t := OnBus(base, tail), OnBus(cells, tail), from - FLASH_START, to - FLASH_START;
    forall k | 0 <= k < t - f
      ensures m[f..t][k] == n[f..t][k]
    {
      assert At(base, from + k) == At(cells, from + k);
    }
  }

  /** An application that ends behind its size word, and whose size is zero. */
  function SmallApp(): (s: seq<Byte>)
    ensures |s| == HEADER_OFFSET + 4
  {
    Zeros(HEADER_OFFSET + 4)
  }

  /** Received into any flash this application is locked as too small. A good loader answers 0 all the same, and
      a loader whose own header is blank answers that its address is wrong. */
  lemma WrongAnswer(base: Cells, tail: Tail)
    ensures var m := OnBus(Written(base, NotErased(), APP_START, SmallApp()), tail);
            && AppLock(m) == BY_SIZE_SMALL
            && (GoodLoader(OnBus(base, tail)) ==> LdrLock(m) == NONE)
            && (HeaderWord(OnBus(base, tail), LDR_START, 0) == 0xFFFF_FFFF ==> LdrLock(m) == BY_ADDR)
  {
    hide ImageLock, Written, OnBus, Agree, HeaderWord, GoodLoader, LockCode;
    var before, m := OnBus(base, tail), OnBus(Written(base, NotErased(), APP_START, SmallApp()), tail);
    EndToEnd.ReceivedIsPlaced(base, tail, APP_REGION, SmallApp());
    SizeOfSmall(m);
    LockOfSize(m, APP_START, APP_NAME);
    if GoodLoader(before) {
      AnswerOfLoader(base, tail, SmallApp());
      LockCodeInjective(LdrLock(m), NONE);
      assert LockCode(NONE) == 0 by { NoneIsZero(); }
    }
    BelowAgrees(base, tail, SmallApp(), LDR_START, LDR_END);
    HeaderIsLocal(before, m, LDR_START, LDR_END);
    LockOfSize(m, LDR_START, LDR_NAME);
  }

  lemma NoneIsZero()
    ensures LockCode(NONE) == 0
  {}

  lemma SizeOfSmall(m: Bus)
    requires Placed(m, APP_START, SmallApp())
    ensures HeaderWord(m, APP_START, 0) == 0
  {
    hide Mem;
    PlacedPart(m, APP_START, SmallApp(), HEADER_OFFSET, 4);
  }

  /** A size word that is too small or leaves the flash locks an image. */
  lemma LockOfSize(m: Bus, addr: ImageAddr, name: seq<Byte>)
    ensures HeaderWord(m, addr, 0) <= HEADER_OFFSET + HEADER_SIZE ==> ImageLock(m, addr, name) == BY_SIZE_SMALL
    ensures HeaderWord(m, addr, 0) == 0xFFFF_FFFF ==> ImageLock(m, addr, name) == BY_ADDR
  {
    hide HeaderWord, CrcCovered, FieldsCount, FieldStrings;
  }
}
