/** Firmware update over the network: the file callbacks of the loader and of the application
    (ldr/tftp_server_callback.c, app/comm/tftp_server_callback.c). */
module Update {
  import opened Bytes
  import Crc
  import opened FlashMemory
  import opened FwFields
  import opened FwHeader
  import opened FwImages
  import opened Layout

  type Tail = t: seq<Byte> | |t| == 2 witness [0, 0]

  /** The flash on the bus, with the two bytes behind it. */
  function OnBus(cells: Cells, tail: Tail): Bus {
    cells + tail
  }

  datatype Region = Region(start: int, end: int) {
    ghost predicate Wf() {
      this in {LDR_REGION, APP_REGION}
    }
  }

  const LDR_REGION := Region(LDR_START, LDR_END)
  const APP_REGION := Region(APP_START, APP_END)

  /** The sectors of a region. */
  predicate SectorIn(region: Region, i: nat)
    requires i < SECTORS
  {
    region.start <= Desc(i).start && Desc(i).start + Desc(i).len <= region.end
  }

  ghost predicate WithinRegion(region: Region, op: Op) {
    exists i: nat :: i < SECTORS && SectorIn(region, i) && op.Within(i)
  }

  ghost predicate AllWithin(region: Region, ops: seq<Op>) {
    forall j :: 0 <= j < |ops| ==> WithinRegion(region, ops[j])
  }

  /** Regions are whole sectors: a write inside a region erases and programs nothing outside it. */
  lemma WritesStayInside(region: Region, ops: seq<Op>, dest: int, n: nat)
    requires region.Wf() && MeetRange(ops, dest, n)
    requires region.start <= dest && dest + n <= region.end
    ensures AllWithin(region, ops)
  {
    forall j | 0 <= j < |ops|
      ensures WithinRegion(region, ops[j])
    {
      assert MeetsRange(ops[j], dest, n);
      var i: nat :| i < SECTORS && ops[j].Within(i) && Desc(i).Meets(dest, n);
      assert SectorIn(region, i);
    }
  }

  const ILLEGAL_RANGE := 6

  function LockCode(l: Lock): nat {
    match l
    case NONE => 0
    case BY_CRC => 1
    case BY_ADDR => 2
    case BY_SIZE_SMALL => 3
    case BY_ZERO_FIELDS_COUNT => 4
    case NO_PROD_FIELD => 5
    case NO_PROD_NAME_FIELD => 6
    case PROD_MISMATCH => 7
    case PROD_NAME_FAULT => 8
  }

  datatype Image = IMG_PRELDR | IMG_LDR | IMG_APP

  /** The program that serves files; it may write one region, `own`: the loader that of the
      application, the application that of the loader. */
  class FileServer {
    const flash: Flash
    const tail: Tail
    const own: Region
    const crc: Crc.CrcUnit
    const preldr: FwInfo
    const ldr: FwInfo
    const app: FwInfo
    /** `tftp_cb.write` is set. */
    var writable: bool
    /** The flash when the transfer was accepted, and the bytes written from then on. */
    ghost var base: Cells
    ghost var received: seq<Byte>

    constructor (flash: Flash, tail: Tail, own: Region, crc: Crc.CrcUnit, preldr: FwInfo, ldr: FwInfo, app: FwInfo)
      requires own.Wf() && preldr.addr == PRELDR_START && ldr.addr == LDR_START && app.addr == APP_START
      ensures this.flash == flash && this.own == own && this.tail == tail && Linked() && !writable
    {
      this.flash, this.tail, this.own, this.crc := flash, tail, own, crc;
      this.preldr, this.ldr, this.app := preldr, ldr, app;
      writable, base, received := false, flash.cells, [];
    }

    ghost predicate Linked() {
      own.Wf() && preldr.addr == PRELDR_START && ldr.addr == LDR_START && app.addr == APP_START
    }

    /** While a transfer goes well the flash is `base` with the received bytes written at the region. */
    ghost predicate Receiving()
      reads this, flash
    {
      && flash.Valid()
      && flash.cells == Written(base, NotErased(), own.start, received)
      && flash.erased == ErasedBy(NotErased(), own.start, |received|)
    }

    /** What is known of the images is what is in flash. */
    ghost predicate AllChecked()
      reads flash, preldr, ldr, app
    {
      var m := OnBus(flash.cells, tail);
      Checked(m, preldr) && Checked(m, ldr) && Checked(m, app)
    }

    method CheckImages()
      requires Linked()
      modifies crc, preldr, ldr, app
      ensures ldr.locked == LdrLock(OnBus(flash.cells, tail)) && app.locked == AppLock(OnBus(flash.cells, tail))
      ensures preldr.locked == PreldrLock(OnBus(flash.cells, tail)) && AllChecked()
    {
      CheckAll(OnBus(flash.cells, tail), crc, preldr, ldr, app);
    }

    /** `tftp_server_check_file`; `name` is the file asked for, None for any other name. */
    method CheckFile(isWrite: bool, name: Option<Image>) returns (r: int)
      requires Linked() && flash.Valid()
      modifies this`writable, this`base, this`received, flash`erased, crc, preldr, ldr, app
      ensures r == 0 <==> name.Some? && (isWrite ==> name.value == if own == APP_REGION then IMG_APP else IMG_LDR)
      ensures r == 0 && isWrite ==> writable && Receiving() && received == [] && base == flash.cells
      ensures !(r == 0 && isWrite) ==> flash.Valid() && flash.erased == old(flash.erased) && writable == old(writable)
      ensures ldr.locked == LdrLock(OnBus(flash.cells, tail)) && app.locked == AppLock(OnBus(flash.cells, tail))
      ensures preldr.locked == PreldrLock(OnBus(flash.cells, tail)) && AllChecked()
    {
      hide LdrLock, AppLock, PreldrLock, Checked, Written, ErasedBy;
      CheckImages();
      if name == Some(if own == APP_REGION then IMG_APP else IMG_LDR) && isWrite {
        flash.EraseFlagReset();
        writable, base, received := true, flash.cells, [];
        WrittenNothing(flash.cells, NotErased(), own.start);
        return 0;
      }
      if name.Some? && !isWrite {
        return 0;
      }
      return 1;
    }

    /** `cb_wr_gw_app` and `cb_wr_gw_ldr`. Both answer the final call with the lock of the loader. */
    method WriteCallback(addr: U32, data: seq<Byte>) returns (r: int)
      requires Linked() && flash.Valid() && addr + |data| < U32_MOD
      modifies this`received, flash`cells, flash`erased, flash`ops, crc, preldr, ldr, app
      ensures flash.Valid()
      ensures old(flash.ops) <= flash.ops && AllWithin(own, flash.ops[|old(flash.ops)|..])
      ensures addr != 0 && data == [] ==>
                r == LockCode(LdrLock(OnBus(flash.cells, tail))) && ldr.locked == LdrLock(OnBus(flash.cells, tail))
      ensures data == [] && addr == 0 ==> r == 0
      ensures data != [] ==> (r == ILLEGAL_RANGE <==> addr + |data| > own.end - own.start)
      ensures data == [] || r == ILLEGAL_RANGE ==>
                flash.cells == old(flash.cells) && flash.ops == old(flash.ops) && flash.erased == old(flash.erased)
      ensures data == [] || r != 0 ==> received == old(received)
      ensures data == [] && old(Receiving()) ==> Receiving()
      ensures data != [] && r == 0 && old(Receiving()) && addr == |old(received)| ==>
                Receiving() && received == old(received) + data
      ensures data != [] && old(Receiving()) && addr == |old(received)| ==>
                (r == 0 <==> addr + |data| <= own.end - own.start && NoFaults(flash.ops[|old(flash.ops)|..]))
      ensures data != [] && r == 0 ==>
                flash.cells == Written(old(flash.cells), old(flash.erased), own.start + addr, data)
    {
      hide LdrLock, AppLock, PreldrLock, Written, ErasedBy, MeetRange, AllWithin, NoFaults, EraseOnce, Clash;
      NothingWithin(own);
      NoFaultsNothing();
      assert flash.ops[|flash.ops|..] == [];
      if addr != 0 && |data| == 0 {
        CheckImages();
        return LockCode(ldr.locked);
      }
      if addr + |data| > own.end - own.start {
        return ILLEGAL_RANGE;
      }
      r := flash.Write(own.start + addr, data);
      WritesStayInside(own, flash.ops[|old(flash.ops)|..], own.start + addr, |data|);
      if |data| == 0 {
        WrittenNothing(old(flash.cells), old(flash.erased), own.start + addr);
        NothingMeetsNothing(flash.ops[|old(flash.ops)|..], own.start + addr);
      }
      WrittenAppend(base, NotErased(), own.start, received, data);
      NoClashAhead(base, own.start, received, data);
      assert received + [] == received;
      if r == 0 {
        received := received + data;
      }
    }

    function Info(image: Image): FwInfo {
      match image
      case IMG_PRELDR => preldr
      case IMG_LDR => ldr
      case IMG_APP => app
    }

    /** All a download delivers. */
    ghost function Download(image: Image): seq<Byte>
      reads flash, preldr, ldr, app
    {
      Served(OnBus(flash.cells, tail), StartOf(image), EndOf(image), Info(image))
    }

    /** `gw_read`, called through `cb_gw_rd_*`: the bytes of the download from `addr` on, as far as
        the buffer and the download go. */
    method Read(image: Image, addr: U32, sizeBuffer: U32) returns (data: seq<Byte>)
      requires Linked() && addr + FLASH_FINISH < U32_MOD
      ensures data == Piece(Download(image), addr, sizeBuffer)
    {
      hide Mem, OnBus;
      var m, fw := OnBus(flash.cells, tail), Info(image);
      var start, end := StartOf(image), EndOf(image);
      if fw.locked == NONE {
        end := if end - start > fw.size then start + fw.size else end;
      }
      var len := if end > addr + start then end - addr - start else 0;
      if len > sizeBuffer {
        len := sizeBuffer;
      }
      data := [];
      MemPart(m, start, end - start, addr, len);
      if len != 0 {
        data := Mem(m, start + addr, len);
      }
    }
  }

  lemma MemPart(m: Bus, start: int, n: nat, addr: nat, len: nat)
    requires InFlash(start, n) && (len > 0 ==> addr + len <= n)
    ensures len > 0 ==> Mem(m, start + addr, len) == Mem(m, start, n)[addr..addr + len]
    ensures addr + len == n && len > 0 ==> Mem(m, start + addr, len) == Mem(m, start, n)[addr..]
  {}

  function StartOf(image: Image): (a: int)
    ensures FLASH_START <= a
  {
    match image
    case IMG_PRELDR => PRELDR_START
    case IMG_LDR => LDR_START
    case IMG_APP => APP_START
  }

  function EndOf(image: Image): (a: int)
    ensures StartOf(image) <= a <= FLASH_FINISH
  {
    match image
    case IMG_PRELDR => PRELDR_END
    case IMG_LDR => LDR_END
    case IMG_APP => APP_END
  }

  /** Bytes behind what has been received are free: programming them cannot clash. */
  lemma NoClashAhead(base: Cells, start: int, received: seq<Byte>, data: seq<Byte>)
    ensures forall i :: 0 <= i < |data| ==>
              !Clash(Written(base, NotErased(), start, received), ErasedBy(NotErased(), start, |received|),
                     start + |received| + i, data[i])
  {
    forall i | 0 <= i < |data|
      ensures !Clash(Written(base, NotErased(), start, received), ErasedBy(NotErased(), start, |received|),
                     start + |received| + i, data[i])
    {
      var addr := start + |received| + i;
      if Clash(Written(base, NotErased(), start, received), ErasedBy(NotErased(), start, |received|), addr, data[i]) {
        ClashFromStart(base, NotErased(), start, received, addr, data[i]);
      }
    }
  }

  /** At most `n` bytes from `addr` on. */
  function Piece(all: seq<Byte>, addr: nat, n: nat): seq<Byte> {
    if addr >= |all| then [] else if addr + n < |all| then all[addr..addr + n] else all[addr..]
  }

  /** What the client puts together from address `at` on: pieces of `n` bytes up to the first short one. */
  function Received(all: seq<Byte>, at: nat, n: nat): seq<Byte>
    requires n > 0
    decreases |all| - at
  {
    var piece := Piece(all, at, n);
    if |piece| < n then piece else piece + Received(all, at + n, n)
  }

  /** That is everything. */
  lemma {:induction false} PiecesMakeWhole(all: seq<Byte>, at: nat, n: nat)
    requires n > 0 && at <= |all|
    ensures Received(all, at, n) == all[at..]
    decreases |all| - at
  {
    if |Piece(all, at, n)| == n {
      PiecesMakeWhole(all, at + n, n);
      assert all[at..] == all[at..at + n] + all[at + n..];
    }
  }

  /** What a download of an image delivers: the image itself when it is unlocked, else its whole region. */
  function Served(m: Bus, start: int, end: int, fw: FwInfo): seq<Byte>
    requires FLASH_START <= start <= end <= FLASH_FINISH
    reads fw
  {
    Mem(m, start, if fw.locked == NONE && fw.size < end - start then fw.size else end - start)
  }

  lemma NothingMeetsNothing(ops: seq<Op>, dest: int)
    requires MeetRange(ops, dest, 0)
    ensures ops == []
  {
    hide MeetsRange;
    assert ops == [] || MeetsRange(ops[0], dest, 0);
    forall op: Op
      ensures !MeetsRange(op, dest, 0)
    {
      NoneMeetsNothing(op, dest);
    }
  }

  lemma NoneMeetsNothing(op: Op, dest: int)
    ensures !MeetsRange(op, dest, 0)
  {}

  lemma NothingWithin(region: Region)
    ensures AllWithin(region, [])
  {}
}
