/** Why the loader must lie inside its region: the one assumption of `NeverBricked` is exact. */
module LdrLayout {
  import opened Bytes
  import Crc
  import opened FlashMemory
  import opened FwFields
  import opened FwHeader
  import opened FwImages
  import opened Layout
  import EndToEnd
  import opened NeverBricked
  import opened Sign
  import SignTheorems
  import Boot
  import Update

  /** The application, which could upload another loader, never runs. */
  ghost predicate LdrAlone(events: seq<DeviceEvent>) {
    forall i :: 0 <= i < |events| ==> events[i] != Jumps(Boot.ToApp)
  }

  ghost predicate LdrRun(d: Device, states: seq<Device>, events: seq<DeviceEvent>) {
    DeviceRun(states, events) && LdrAlone(events) && states[0] == d
  }

  /** A run in which the application never runs leads from `d` to `e`. */
  ghost predicate Leads(d: Device, e: Device) {
    exists states, events :: LdrRun(d, states, events) && states[|events|] == e
  }

  ghost predicate MayHalt(d: Device) {
    exists e :: Leads(d, e) && e.mode == HALT
  }

  /** A loader that runs can take the device to the preloader's halt loop, by nothing but the writes it
      is for, exactly if it does not lie inside its region. */
  lemma LayoutIsExact(d: Device)
    requires d.mode == RUN_LDR && PreldrGood(d) && LdrLock(d.Memory()) == NONE
    ensures RegionOk(d.Memory(), LDR_START)
    ensures MayHalt(d) <==> !Contained(d.Memory(), LDR_START, LDR_END)
  {
    hide Leads, RegionOk, ImageLock, Contained, Update.OnBus;
    UnlockedIsOk(d.Memory(), LDR_START, LDR_NAME);
    if Contained(d.Memory(), LDR_START, LDR_END) {
      if e :| Leads(d, e) && e.mode == HALT {
        StaysFine(d, e);
      }
    } else {
      LeadsToHalt(d);
    }
  }

  /** So the limit the build signs the loader with is the right one: of all loaders that the host tool
      signs, whatever the limit, exactly those that exceed it can brick the gateway they run on. */
  lemma LimitIsExact(preldr: seq<Byte>, preldrArgs: seq<seq<Byte>>, ldr: seq<Byte>, ldrArgs: seq<seq<Byte>>, limit: int,
                     d: Device)
    requires Arguments(preldrArgs) && Representable(preldr, preldrArgs) && FirstBad(preldrArgs) == |preldrArgs|
    requires Arguments(ldrArgs) && Representable(ldr, ldrArgs) && FirstBad(ldrArgs) == |ldrArgs|
    requires SignSpec(preldr, preldrArgs, EndToEnd.PRELDR_LIMIT).Signed? && SignSpec(ldr, ldrArgs, limit).Signed?
    requires limit <= MaxSize(LDR_START)
    requires SignTheorems.Placed(d.Memory(), PRELDR_START, SignSpec(preldr, preldrArgs, EndToEnd.PRELDR_LIMIT).image)
    requires SignTheorems.Placed(d.Memory(), LDR_START, SignSpec(ldr, ldrArgs, limit).image)
    requires FirstValue(preldrArgs, PROD).Some? && FirstValue(preldrArgs, PROD_NAME).Some?
    requires FirstValue(ldrArgs, PROD) == FirstValue(preldrArgs, PROD)
        && FirstValue(ldrArgs, PROD_NAME) == Some(LDR_NAME)
    requires d.mode == RUN_LDR
    ensures MayHalt(d) <==> |SignSpec(ldr, ldrArgs, limit).image| > EndToEnd.LDR_LIMIT
  {
    hide SignSpec, Representable, Arguments, SignTheorems.Placed, FirstValue, RegionOk, ImageLock, Contained,
         MayHalt, Update.OnBus;
    EndToEnd.AssembledGateway(preldr, preldrArgs, ldr, ldrArgs, limit, d.Memory());
    LayoutIsExact(d);
  }

  /** A gateway with a loader that fills its region before the fields are appended: a run from here, which
      keeps all that `NeverBricked` asks of a start, ends in the halt loop. */
  lemma LongLoader(src: Boot.LoadSrc, tail: Update.Tail) returns (d: Device)
    ensures d.mode == RUN_LDR && d.src == src && d.tail == tail
    ensures PreldrGood(d) && LdrLock(d.Memory()) == NONE && MayHalt(d)
  {
    hide SignSpec, Representable, Arguments, FirstValue, RegionOk, ImageLock, Contained, MayHalt, EndToEnd.Binary,
         EndToEnd.ProductArgs, ZeroPadded, SignTheorems.Placed, Update.OnBus, SignTheorems.Describes, Total;
    var args, ldrArgs := EndToEnd.ProductArgs(APP_NAME), EndToEnd.ProductArgs(LDR_NAME);
    var preldr, ldr := EndToEnd.Binary(HEADER_END), EndToEnd.Binary(EndToEnd.LDR_LIMIT);
    var limit := EndToEnd.LDR_LIMIT + 64;
    EndToEnd.ProductArgsAre(APP_NAME);
    EndToEnd.ProductArgsAre(LDR_NAME);
    EndToEnd.SignedBinary(HEADER_END, args, EndToEnd.PRELDR_LIMIT);
    EndToEnd.SignedBinary(EndToEnd.LDR_LIMIT, ldrArgs, limit);
    SignTheorems.SignedDescribes(preldr, args, EndToEnd.PRELDR_LIMIT);
    SignTheorems.SignedDescribes(ldr, ldrArgs, limit);
    var p, l := SignSpec(preldr, args, EndToEnd.PRELDR_LIMIT).image, SignSpec(ldr, ldrArgs, limit).image;
    d := Device(RUN_LDR, src, SideBySide(p, l), tail);
    BothPlaced(p, l, tail);
    LimitIsExact(preldr, args, ldr, ldrArgs, limit, d);
    EndToEnd.AssembledGateway(preldr, args, ldr, ldrArgs, limit, d.Memory());
  }

  function SideBySide(p: seq<Byte>, l: seq<Byte>): Cells
    requires |p| <= LDR_START - FLASH_START && |l| <= FLASH_FINISH - LDR_START
  {
    p + Zeros(LDR_START - FLASH_START - |p|) + l + Zeros(FLASH_FINISH - LDR_START - |l|)
  }

  lemma BothPlaced(p: seq<Byte>, l: seq<Byte>, tail: Update.Tail)
    requires |p| <= LDR_START - FLASH_START && |l| <= FLASH_FINISH - LDR_START
    ensures SignTheorems.Placed(Update.OnBus(SideBySide(p, l), tail), PRELDR_START, p)
    ensures SignTheorems.Placed(Update.OnBus(SideBySide(p, l), tail), LDR_START, l)
  {
    var m := Update.OnBus(SideBySide(p, l), tail);
    assert m[..|p|] == p;
    assert m[LDR_START - FLASH_START..LDR_START - FLASH_START + |l|] == l;
  }

  // ----- Inside its region -----

  ghost predicate LdrFine(d: Device) {
    d.mode in {RUN_PRELDR, RUN_LDR} && GoodLoader(d.Memory())
  }

  lemma FineWrite(d: Device, op: Op)
    requires LdrFine(d) && op.Wf() && MayWrite(d.mode, op)
    ensures LdrFine(d.(cells := Apply(d.cells, op)))
  {
    hide Apply, ImageLock, AppLock, RegionOk, Contained, Update.OnBus, Update.WithinRegion;
    WriteKeepsSafe(d, op);
    UnlockedIsOk(d.(cells := Apply(d.cells, op)).Memory(), LDR_START, LDR_NAME);
  }

  lemma FineNext(d: Device, event: DeviceEvent, e: Device)
    requires LdrFine(d) && DeviceNext(d, event, e) && event != Jumps(Boot.ToApp)
    ensures LdrFine(e)
  {
    hide Apply, MayWrite, ImageLock, AppLock, RegionOk, Contained, Update.OnBus;
    match event
    case Writes(op) => FineWrite(d, op);
    case _ =>
  }

  lemma {:induction false} LdrStays(d: Device, states: seq<Device>, events: seq<DeviceEvent>)
    requires DeviceRun(states, events) && LdrAlone(events) && states[0] == d && LdrFine(d)
    ensures LdrFine(states[|events|])
    decreases |events|
  {
    hide DeviceNext, LdrFine;
    if events != [] {
      var n := |events| - 1;
      LdrStays(d, states[..n + 1], events[..n]);
      FineNext(states[n], events[n], states[n + 1]);
    }
  }

  lemma StaysFine(d: Device, e: Device)
    requires Leads(d, e) && LdrFine(d)
    ensures LdrFine(e)
  {
    hide LdrFine;
    var states, events :| LdrRun(d, states, events) && states[|events|] == e;
    LdrStays(d, states, events);
  }

  // ----- Outside its region -----

  lemma LeadsNowhere(d: Device)
    ensures Leads(d, d)
  {
    assert LdrRun(d, [d], []);
  }

  lemma LeadsOn(d: Device, e: Device, event: DeviceEvent, f: Device)
    requires Leads(d, e) && DeviceNext(e, event, f) && event != Jumps(Boot.ToApp)
    ensures Leads(d, f)
  {
    hide DeviceNext;
    var states, events :| LdrRun(d, states, events) && states[|events|] == e;
    assert LdrRun(d, states + [f], events + [event]);
  }

  lemma LeadsToHalt(d: Device)
    requires d.mode == RUN_LDR && LdrLock(d.Memory()) == NONE && RegionOk(d.Memory(), LDR_START)
    requires !Contained(d.Memory(), LDR_START, LDR_END)
    ensures MayHalt(d)
  {
    hide ImageLock, AppLock, RegionOk, Leads, Wiped, Agree, Rd, Update.OnBus, AlignDown, HeaderWord, Cat, FieldStrings,
         FieldsAddr;
    var w := d.(cells := Wiped(d.cells));
    LeadsToWiped(d);
    WipeBlanks(d.cells, d.tail);
    AppIsBlank(d.Memory(), w.Memory());
    if LdrLock(w.Memory()) != NONE {
      LockedHalts(d, w);
    } else {
      UnlockedIsOk(w.Memory(), LDR_START, LDR_NAME);
      FieldsInside(d.Memory(), w.Memory());
      var v := w.(cells := w.cells[LDR_END - FLASH_START := 0]);
      LeadsOn(d, w, Writes(Program(LDR_END, 0, true)), v);
      ByteProgrammed(w, v);
      OneByteLocks(w.Memory(), v.Memory());
      BlankIsLocked(v.Memory());
      LockedHalts(d, v);
    }
  }

  lemma AppIsBlank(m: Bus, w: Bus)
    requires BlankBehind(m, w)
    ensures AppLock(w) != NONE
  {
    hide AppLock, Agree, Rd;
    BlankIsLocked(w);
  }

  /** The program changes one byte, which the wipe left blank. */
  lemma ByteProgrammed(w: Device, v: Device)
    requires Rd(w.Memory(), LDR_END) == 0xFF && v == w.(cells := w.cells[LDR_END - FLASH_START := 0])
    ensures forall a: Addr :: Rd(v.Memory(), a) == Rd(w.Memory(), a) <==> a != LDR_END
  {}

  lemma LeadsToWiped(d: Device)
    requires d.mode == RUN_LDR
    ensures Leads(d, d.(cells := Wiped(d.cells)))
  {
    hide Leads, Apply, Blank, MayWrite;
    var d4 := d.(cells := Apply(d.cells, Blank(CFG_SECT)));
    var d5 := d.(cells := Apply(d4.cells, Blank(5)));
    var d6 := d.(cells := Apply(d5.cells, Blank(6)));
    LeadsNowhere(d);
    MayBlank(CFG_SECT);
    LeadsOn(d, d, Writes(Blank(CFG_SECT)), d4);
    MayBlank(5);
    LeadsOn(d, d4, Writes(Blank(5)), d5);
    MayBlank(6);
    LeadsOn(d, d5, Writes(Blank(6)), d6);
    MayBlank(7);
    LeadsOn(d, d6, Writes(Blank(7)), d.(cells := Wiped(d.cells)));
  }

  /** With both images locked a reset ends in the halt loop. */
  lemma LockedHalts(d: Device, e: Device)
    requires Leads(d, e) && LdrLock(e.Memory()) != NONE && AppLock(e.Memory()) != NONE
    ensures MayHalt(d)
  {
    hide Leads, LdrLock, AppLock, Update.OnBus;
    var reset := e.(mode := RUN_PRELDR, src := Boot.SRC_NONE);
    LeadsOn(d, e, Resets(false), reset);
    LeadsOn(d, reset, Jumps(Boot.Stuck), reset.(mode := HALT));
  }

  /** A successful erase of sector `i`. */
  function Blank(i: nat): (op: Op)
    requires i < SECTORS
    ensures op.Wf() && op.Erase? && op.sector == i
  {
    Erase(i, Ones(Desc(i).len), true)
  }

  function Ones(n: nat): (s: seq<Byte>)
    ensures |s| == n && forall i :: 0 <= i < n ==> s[i] == 0xFF
  {
    seq(n, _ => 0xFF)
  }

  lemma BlankCells(cells: Cells, i: nat)
    requires i < SECTORS
    ensures forall a: Addr ::
              At(Apply(cells, Blank(i)), a) == if SectorOf(a) == i then 0xFF else At(cells, a)
  {
    hide Splice;
    SpliceSector(cells, i, Blank(i).content);
  }

  /** The cells after all sectors behind the loader's region have been erased. */
  ghost function Wiped(cells: Cells): Cells {
    Apply(Apply(Apply(Apply(cells, Blank(CFG_SECT)), Blank(5)), Blank(6)), Blank(7))
  }

  lemma WipedCells(cells: Cells)
    ensures forall a: Addr :: At(Wiped(cells), a) == if a < LDR_END then At(cells, a) else 0xFF
  {
    hide Apply, Blank;
    var c4 := Apply(cells, Blank(CFG_SECT));
    var c5 := Apply(c4, Blank(5));
    var c6 := Apply(c5, Blank(6));
    BlankCells(cells, CFG_SECT);
    BlankCells(c4, 5);
    BlankCells(c5, 6);
    BlankCells(c6, 7);
  }

  lemma MayBlank(i: nat)
    requires CFG_SECT <= i < SECTORS
    ensures MayWrite(RUN_LDR, Blank(i))
  {
    assert i != CFG_SECT ==> Update.SectorIn(Update.APP_REGION, i);
  }

  /** What the wipe, and the further program, leaves of the two regions. */
  ghost predicate BlankBehind(m: Bus, w: Bus) {
    && Agree(m, w, LDR_START, LDR_END)
    && forall a: Addr :: a >= LDR_END ==> Rd(w, a) == 0xFF
  }

  lemma WipeBlanks(cells: Cells, tail: Update.Tail)
    ensures BlankBehind(Update.OnBus(cells, tail), Update.OnBus(Wiped(cells), tail))
  {
    hide Wiped;
    WipedCells(cells);
    var m, w := Update.OnBus(cells, tail), Update.OnBus(Wiped(cells), tail);
    var f, t := LDR_START - FLASH_START, LDR_END - FLASH_START;
    forall k | 0 <= k < t - f
      ensures m[f..t][k] == w[f..t][k]
    {
      assert At(cells, LDR_START + k) == At(Wiped(cells), LDR_START + k);
    }
    forall a: Addr | a >= LDR_END
      ensures Rd(w, a) == 0xFF
    {
      assert At(Wiped(cells), a) == 0xFF;
    }
  }

  /** A blank header locks the application. */
  lemma BlankIsLocked(w: Bus)
    requires forall a: Addr :: a >= APP_START ==> Rd(w, a) == 0xFF
    ensures AppLock(w) == BY_ADDR
  {
    hide FieldsCount, FieldStrings, Crc.CrcValue, CrcCovered, Mem, HeaderWord;
    BlankWord(w, APP_START);
  }

  lemma BlankWord(w: Bus, addr: ImageAddr)
    requires forall a: Addr :: a >= addr ==> Rd(w, a) == 0xFF
    ensures HeaderWord(w, addr, 0) == 0xFFFF_FFFF
  {}

  /** If the loader survives the wipe, its field block lay inside its region. */
  lemma FieldsInside(m: Bus, w: Bus)
    requires RegionOk(m, LDR_START) && RegionOk(w, LDR_START) && BlankBehind(m, w)
    ensures HeaderWord(w, LDR_START, 0) == HeaderWord(m, LDR_START, 0)
    ensures LDR_START <= FieldsAddr(m, LDR_START)
    ensures FieldsAddr(m, LDR_START) + |Cat(FieldStrings(m, LDR_START, MaxSize(LDR_START)))| + 1 <= LDR_END
  {
    hide Mem, HeaderWord, Cat, Crc.CrcValue, CrcCovered, Strings, ValueAddr, Agree;
    HeaderIsLocal(m, w, LDR_START, LDR_END);
    var at, room := FieldsAddr(m, LDR_START), FieldsRoom(m, LDR_START, MaxSize(LDR_START));
    var ss := FieldStrings(w, LDR_START, MaxSize(LDR_START));
    var r, q := Mem(m, at, room), Mem(w, at, room);
    var k := |Cat(ss)| + 1;
    assert q[k - 1] == (Cat(ss) + [0])[k - 1] == 0;
    assert Rd(w, at + k - 1) == 0;
    MemAgrees(m, w, LDR_START, LDR_END, at, k);
    assert q[..k] == Mem(w, at, k) && r[..k] == Mem(m, at, k);
    assert Cat(ss) + [0] == q[..k] == r[..k] <= r;
    StringsIff(r, ss);
  }

  /** One more program of a byte the CRC covers locks it. */
  lemma OneByteLocks(w: Bus, v: Bus)
    requires RegionOk(w, LDR_START) && LDR_START + AlignDown(HeaderWord(w, LDR_START, 0)) > LDR_END
    requires forall a: Addr :: Rd(v, a) == Rd(w, a) <==> a != LDR_END
    ensures LdrLock(v) == BY_CRC
  {
    hide Crc.CrcValue, CrcCovered, FieldsCount, HeaderWord, FieldAddr, Field;
    SameHeader(w, v);
    CoveredDiffers(w, v, HeaderWord(w, LDR_START, 0));
  }

  lemma SameHeader(w: Bus, v: Bus)
    requires forall a: Addr :: a < LDR_END ==> Rd(v, a) == Rd(w, a)
    ensures forall k: nat :: k < 4 ==> HeaderWord(v, LDR_START, k) == HeaderWord(w, LDR_START, k)
  {
    hide FromLe32;
    forall k: nat | k < 4
      ensures HeaderWord(v, LDR_START, k) == HeaderWord(w, LDR_START, k)
    {
      assert Mem(v, LDR_START + HEADER_OFFSET + 4 * k, 4) == Mem(w, LDR_START + HEADER_OFFSET + 4 * k, 4);
    }
  }

  lemma CoveredDiffers(w: Bus, v: Bus, size: nat)
    requires InFlash(LDR_START, size) && LDR_START + AlignDown(size) > LDR_END
    requires forall a: Addr :: Rd(v, a) == Rd(w, a) <==> a != LDR_END
    ensures Crc.CrcValue(CrcCovered(v, LDR_START, size)) != Crc.CrcValue(CrcCovered(w, LDR_START, size))
  {
    hide Crc.CrcValue, Rd;
    var a, b := CrcCovered(w, LDR_START, size), CrcCovered(v, LDR_START, size);
    forall j | 0 <= j < |a|
      ensures a[j] == Rd(w, LDR_START + if j < HEADER_OFFSET then j else j + HEADER_SIZE)
      ensures b[j] == Rd(v, LDR_START + if j < HEADER_OFFSET then j else j + HEADER_SIZE)
    {}
    Crc.OneByteDetected(a, b, LDR_END - LDR_START - HEADER_SIZE);
  }
}
