/** The three images of the gateway and their locks (common/fw_header/fw_headers_variables.c). */
module FwImages {
  import opened Bytes
  import opened Crc
  import opened FlashMemory
  import opened FwFields
  import opened FwHeader
  import opened Layout

  /** The size limit handed to the region check: from the image to the end of the flash, less the header offset. */
  function MaxSize(addr: ImageAddr): nat {
    FLASH_FINISH - HEADER_OFFSET - addr - 1
  }

  function RegionOk(m: Bus, addr: ImageAddr): bool {
    RegionLock(m, addr, MaxSize(addr)) == NONE
  }

  /** The lock of the preloader. */
  function PreldrLock(m: Bus): Lock {
    RegionLock(m, PRELDR_START, MaxSize(PRELDR_START))
  }

  /** The value of a field of an image that passed the region check. */
  function Field(m: Bus, addr: ImageAddr, key: seq<Byte>): Option<seq<Byte>>
    requires RegionOk(m, addr)
  {
    Lookup(FieldStrings(m, addr, MaxSize(addr)), key)
  }

  /** The lock of the loader or the application after `fw_header_check_all`. */
  function ImageLock(m: Bus, addr: ImageAddr, name: seq<Byte>): Lock {
    if !RegionOk(m, addr) then RegionLock(m, addr, MaxSize(addr))
    else if RegionOk(m, PRELDR_START) && Field(m, PRELDR_START, PROD) != Field(m, addr, PROD) then PROD_MISMATCH
    else if Field(m, addr, PROD_NAME) != Some(name) then PROD_NAME_FAULT
    else NONE
  }

  function LdrLock(m: Bus): Lock {
    ImageLock(m, LDR_START, LDR_NAME)
  }

  function AppLock(m: Bus): Lock {
    ImageLock(m, APP_START, APP_NAME)
  }

  method CheckAll(m: Bus, crc: CrcUnit, preldr: FwInfo, ldr: FwInfo, app: FwInfo)
    requires preldr.addr == PRELDR_START && ldr.addr == LDR_START && app.addr == APP_START
    modifies crc, preldr, ldr, app
    ensures preldr.locked == PreldrLock(m)
    ensures ldr.locked == LdrLock(m)
    ensures app.locked == AppLock(m)
    ensures Checked(m, preldr) && Checked(m, ldr) && Checked(m, app)
  {
    hide RegionLock, FieldStrings, Lookup, Field, FwInfo.Filled, FieldsCount, HeaderWord;
    var bad := preldr.CheckRegion(m, crc, MaxSize(PRELDR_START));
    bad := ldr.CheckRegion(m, crc, MaxSize(LDR_START));
    bad := app.CheckRegion(m, crc, MaxSize(APP_START));
    CheckProduct(m, preldr, ldr);
    CheckProduct(m, preldr, app);
    CheckName(m, preldr, ldr, LDR_NAME);
    CheckName(m, preldr, app, APP_NAME);
  }

  /** Size, and if it is not locked fields and version, are those of the image. */
  ghost predicate Checked(m: Bus, fw: FwInfo)
    reads fw`size, fw`fieldProductPtr, fw`fieldProductNamePtr, fw`fieldProductLen, fw`fieldProductNameLen
    reads fw`verMajor, fw`verMinor, fw`verPatch
  {
    && fw.size == HeaderWord(m, fw.addr, 0)
    && (RegionOk(m, fw.addr) ==> FieldsCount(m, fw.addr, MaxSize(fw.addr)) > 0 && fw.Filled(m, MaxSize(fw.addr)))
  }

  method CheckProduct(m: Bus, preldr: FwInfo, fw: FwInfo)
    requires preldr.addr == PRELDR_START && preldr != fw
    requires preldr.locked == RegionLock(m, PRELDR_START, MaxSize(PRELDR_START))
    requires fw.locked == RegionLock(m, fw.addr, MaxSize(fw.addr))
    requires preldr.locked == NONE ==>
               FieldsCount(m, preldr.addr, MaxSize(preldr.addr)) > 0 && preldr.Filled(m, MaxSize(preldr.addr))
    requires fw.locked == NONE ==> FieldsCount(m, fw.addr, MaxSize(fw.addr)) > 0 && fw.Filled(m, MaxSize(fw.addr))
    modifies fw`locked
    ensures fw.locked ==
            if old(fw.locked) == NONE && RegionOk(m, PRELDR_START)
            && Field(m, PRELDR_START, PROD) != Field(m, fw.addr, PROD)
            then PROD_MISMATCH
            else old(fw.locked)
  {
    hide FieldStrings, Lookup, StrLen, StrAt, NumberAt;
    if preldr.locked == NONE && fw.locked == NONE {
      FieldInMemory(m, preldr.addr, MaxSize(preldr.addr), PROD);
      FieldInMemory(m, fw.addr, MaxSize(fw.addr), PROD);
      var same := StrCompareEqualSafeTwoArg(m, preldr.fieldProductPtr, fw.fieldProductPtr);
      if !same {
        fw.locked := PROD_MISMATCH;
      }
    }
  }

  /** The name is a literal of the running program; it is compared as such. */
  method CheckName(m: Bus, preldr: FwInfo, fw: FwInfo, name: seq<Byte>)
    requires NoNul(name)
    requires fw.locked == NONE ==> RegionOk(m, fw.addr) && fw.Filled(m, MaxSize(fw.addr))
    modifies fw`locked
    ensures fw.locked ==
            if old(fw.locked) == NONE && Field(m, fw.addr, PROD_NAME) != Some(name) then PROD_NAME_FAULT
            else old(fw.locked)
  {
    hide FieldStrings, Lookup, StrLen, StrAt, NumberAt;
    if fw.locked == NONE {
      FieldInMemory(m, fw.addr, MaxSize(fw.addr), PROD_NAME);
      var same := StrCompareEqualSafeFirstArg(m, fw.fieldProductNamePtr, name);
      if !same {
        fw.locked := PROD_NAME_FAULT;
      }
    }
  }

  // ----- What an unlocked image is -----

  /** One of the keys of a list of keys and values. */
  ghost predicate HasKey(ss: seq<seq<Byte>>, key: seq<Byte>) {
    exists j :: 0 <= 2 * j < |ss| && ss[2 * j] == key
  }

  ghost predicate Fields(m: Bus, addr: ImageAddr, maxSize: nat, ss: seq<seq<Byte>>) {
    var offset := HeaderWord(m, addr, 2);
    && ss != [] && |ss| % 2 == 0 && offset <= maxSize && InFlash(addr + offset, maxSize - offset)
    && Block(Mem(m, addr + offset, maxSize - offset), ss)
  }

  /** The region check passes exactly for an image that is larger than its header's end, lies in the
      flash, has the CRC its header says, and at the place its header says a block of fields in which
      both product keys occur. */
  lemma UnlockedExactly(m: Bus, addr: ImageAddr, maxSize: nat)
    requires addr + maxSize <= FLASH_FINISH
    ensures RegionLock(m, addr, maxSize) == NONE <==>
              && HEADER_OFFSET + HEADER_SIZE < HeaderWord(m, addr, 0) && InFlash(addr, HeaderWord(m, addr, 0))
              && CrcValue(CrcCovered(m, addr, HeaderWord(m, addr, 0))) == HeaderWord(m, addr, 1)
              && exists ss :: Fields(m, addr, maxSize, ss) && HasKey(ss, PROD) && HasKey(ss, PROD_NAME)
  {
    hide Mem, HeaderWord, Strings, CrcValue, CrcCovered, FieldsCount, FieldStrings, Fields, HasKey, FieldAddr;
    if ss :| Fields(m, addr, maxSize, ss) && HasKey(ss, PROD) && HasKey(ss, PROD_NAME) {
      CountOfFields(m, addr, maxSize, ss);
    }
    if FieldsCount(m, addr, maxSize) > 0 {
      FieldsOfCount(m, addr, maxSize);
      FieldAddrIff(m, addr, maxSize, PROD);
      FieldAddrIff(m, addr, maxSize, PROD_NAME);
    }
  }

  /** Every answer of the region check, in its order of precedence. */
  lemma LockExactly(m: Bus, addr: ImageAddr, maxSize: nat, ss: seq<seq<Byte>>)
    requires addr + maxSize <= FLASH_FINISH
    ensures var size, lock := HeaderWord(m, addr, 0), RegionLock(m, addr, maxSize);
            if size <= 416 then lock == BY_SIZE_SMALL
            else if addr + size > 0x0808_0000 then lock == BY_ADDR
            else if CrcValue(CrcCovered(m, addr, size)) != HeaderWord(m, addr, 1) then lock == BY_CRC
            else
              && (lock == BY_ZERO_FIELDS_COUNT <==> forall tt :: !Fields(m, addr, maxSize, tt))
              && (Fields(m, addr, maxSize, ss) ==>
                    lock == if !HasKey(ss, Ascii("prod_name")) then NO_PROD_NAME_FIELD
                            else if !HasKey(ss, Ascii("prod")) then NO_PROD_FIELD
                            else NONE)
  {
    hide Mem, HeaderWord, Strings, CrcValue, CrcCovered, FieldsCount, FieldStrings, Fields, HasKey, FieldAddr;
    assert PROD == Ascii("prod") && PROD_NAME == Ascii("prod_name");
    forall tt | Fields(m, addr, maxSize, tt)
      ensures FieldsCount(m, addr, maxSize) > 0 && FieldStrings(m, addr, maxSize) == tt
    {
      CountOfFields(m, addr, maxSize, tt);
    }
    if FieldsCount(m, addr, maxSize) > 0 {
      FieldsOfCount(m, addr, maxSize);
      FieldAddrIff(m, addr, maxSize, PROD);
      FieldAddrIff(m, addr, maxSize, PROD_NAME);
    }
  }

  lemma FieldsOfCount(m: Bus, addr: ImageAddr, maxSize: nat)
    requires addr + maxSize <= FLASH_FINISH && FieldsCount(m, addr, maxSize) > 0
    ensures Fields(m, addr, maxSize, FieldStrings(m, addr, maxSize))
  {
    hide HeaderWord, CountOf, Strings, Cat, Proper;
    var r := Mem(m, FieldsAddr(m, addr), FieldsRoom(m, addr, maxSize));
    assert |Cat(FieldStrings(m, addr, maxSize)) + [0]| <= |r|;
  }

  lemma CountOfFields(m: Bus, addr: ImageAddr, maxSize: nat, ss: seq<seq<Byte>>)
    requires addr + maxSize <= FLASH_FINISH && Fields(m, addr, maxSize, ss)
    ensures FieldsCount(m, addr, maxSize) > 0 && FieldStrings(m, addr, maxSize) == ss
  {
    hide HeaderWord, Mem, Strings, Cat;
    var r := Mem(m, FieldsAddr(m, addr), FieldsRoom(m, addr, maxSize));
    CountGrammar(r, |ss| / 2);
    StringsIff(r, ss);
  }

  lemma FieldAddrIff(m: Bus, addr: ImageAddr, maxSize: nat, key: seq<Byte>)
    requires addr + maxSize <= FLASH_FINISH && FieldsCount(m, addr, maxSize) > 0
    ensures FieldAddr(m, addr, maxSize, key) != NULL <==> HasKey(FieldStrings(m, addr, maxSize), key)
  {
    hide FieldsCount, FieldStrings, Offset;
    FieldInMemory(m, addr, maxSize, key);
  }

  // ----- Locality -----

  ghost predicate Agree(m: Bus, n: Bus, from: int, to: int)
    requires FLASH_START <= from <= to <= FLASH_FINISH
  {
    m[from - FLASH_START..to - FLASH_START] == n[from - FLASH_START..to - FLASH_START]
  }

  /** The whole words of the image and its field block, terminator included, lie below `end`. */
  ghost predicate Contained(m: Bus, addr: ImageAddr, end: int)
    requires RegionOk(m, addr)
  {
    && addr + AlignDown(HeaderWord(m, addr, 0)) <= end
    && addr <= FieldsAddr(m, addr)
    && FieldsAddr(m, addr) + |Cat(FieldStrings(m, addr, MaxSize(addr)))| + 1 <= end
  }

  /** Preloader and loader are unlocked and lie in their regions. */
  ghost predicate GoodLoader(m: Bus) {
    && RegionOk(m, PRELDR_START) && Contained(m, PRELDR_START, PRELDR_END)
    && LdrLock(m) == NONE && RegionOk(m, LDR_START) && Contained(m, LDR_START, LDR_END)
  }

  lemma MemAgrees(m: Bus, n: Bus, from: int, to: int, at: int, k: nat)
    requires FLASH_START <= from <= at && at + k <= to <= FLASH_FINISH && Agree(m, n, from, to)
    ensures Mem(m, at, k) == Mem(n, at, k)
  {
    var f, t, i := from - FLASH_START, to - FLASH_START, at - FLASH_START;
    forall j | 0 <= j < k
      ensures Mem(m, at, k)[j] == Mem(n, at, k)[j]
    {
      assert m[f..t][i + j - f] == n[f..t][i + j - f];
    }
  }

  /** The region check of an image that is contained in `[addr, end)` depends on those bytes only. */
  lemma RegionCheckIsLocal(m: Bus, n: Bus, addr: ImageAddr, end: int, key: seq<Byte>)
    requires addr % 4 == 0 && addr + HEADER_OFFSET + HEADER_SIZE <= end <= FLASH_FINISH
    requires RegionOk(m, addr) && Contained(m, addr, end) && Agree(m, n, addr, end)
    ensures RegionOk(n, addr) && Contained(n, addr, end) && Field(n, addr, key) == Field(m, addr, key)
  {
    hide Mem, CountOf, Strings, CrcValue, Cat, FieldStrings, ValueAddr, Lookup;
    HeaderIsLocal(m, n, addr, end);
    CoveredIsLocal(m, n, addr, end, HeaderWord(m, addr, 0));
    FieldsAreLocal(m, n, addr, end);
  }

  lemma HeaderIsLocal(m: Bus, n: Bus, addr: ImageAddr, end: int)
    requires addr + HEADER_OFFSET + HEADER_SIZE <= end <= FLASH_FINISH && Agree(m, n, addr, end)
    ensures forall k: nat :: k < 4 ==> HeaderWord(n, addr, k) == HeaderWord(m, addr, k)
  {
    hide Mem;
    forall k: nat | k < 4
      ensures HeaderWord(n, addr, k) == HeaderWord(m, addr, k)
    {
      MemAgrees(m, n, addr, end, addr + HEADER_OFFSET + 4 * k, 4);
    }
  }

  /** The CRC is that of the whole words. */
  lemma CoveredWords(m: Bus, addr: ImageAddr, size: nat)
    requires addr % 4 == 0 && HEADER_OFFSET + HEADER_SIZE < size && InFlash(addr, size)
    ensures CrcValue(CrcCovered(m, addr, size)) ==
            CrcValue(Mem(m, addr, HEADER_OFFSET)
                     + Mem(m, addr + HEADER_OFFSET + HEADER_SIZE, AlignDown(size) - (HEADER_OFFSET + HEADER_SIZE)))
  {
    hide CrcValue, Mem;
    var at, rest := addr + HEADER_OFFSET + HEADER_SIZE, size - (HEADER_OFFSET + HEADER_SIZE);
    TailIgnored(Mem(m, addr, HEADER_OFFSET), Mem(m, at, rest));
    MemBegins(m, at, AlignDown(size) - (HEADER_OFFSET + HEADER_SIZE), rest);
  }

  lemma MemBegins(m: Bus, at: int, n: nat, k: nat)
    requires n <= k && InFlash(at, k)
    ensures Mem(m, at, k)[..n] == Mem(m, at, n)
  {}

  lemma CoveredIsLocal(m: Bus, n: Bus, addr: ImageAddr, end: int, size: nat)
    requires addr % 4 == 0 && addr + HEADER_OFFSET + HEADER_SIZE <= end <= FLASH_FINISH && Agree(m, n, addr, end)
    requires HEADER_OFFSET + HEADER_SIZE < size && InFlash(addr, size) && addr + AlignDown(size) <= end
    ensures CrcValue(CrcCovered(n, addr, size)) == CrcValue(CrcCovered(m, addr, size))
  {
    hide Mem, CrcValue, CrcCovered, Agree;
    CoveredWords(m, addr, size);
    CoveredWords(n, addr, size);
    MemAgrees(m, n, addr, end, addr, HEADER_OFFSET);
    MemAgrees(m, n, addr, end, addr + HEADER_OFFSET + HEADER_SIZE, AlignDown(size) - (HEADER_OFFSET + HEADER_SIZE));
  }

  lemma FieldsAreLocal(m: Bus, n: Bus, addr: ImageAddr, end: int)
    requires end <= FLASH_FINISH && addr + HEADER_OFFSET + HEADER_SIZE <= end && Agree(m, n, addr, end)
    requires HeaderWord(n, addr, 2) == HeaderWord(m, addr, 2)
    requires RegionOk(m, addr) && Contained(m, addr, end)
    ensures FieldsCount(n, addr, MaxSize(addr)) == FieldsCount(m, addr, MaxSize(addr)) > 0
    ensures FieldStrings(n, addr, MaxSize(addr)) == FieldStrings(m, addr, MaxSize(addr))
  {
    hide Mem, HeaderWord, Cat, CrcValue, CrcCovered, Strings, ValueAddr;
    var at, room := FieldsAddr(m, addr), FieldsRoom(m, addr, MaxSize(addr));
    var ss := FieldStrings(m, addr, MaxSize(addr));
    var r, q := Mem(m, at, room), Mem(n, at, room);
    var k := |Cat(ss)| + 1;
    MemAgrees(m, n, addr, end, at, k);
    assert q[..k] == Mem(n, at, k) && r[..k] == Mem(m, at, k);
    assert Cat(ss) + [0] == r[..k] == q[..k];
    StringsIff(r, ss);
    StringsIff(q, ss);
    assert r[0] == q[0];
  }

  /** An unlocked loader or application stays unlocked while its own bytes and the preloader's stay the same. */
  lemma ImageLockIsLocal(m: Bus, n: Bus, addr: ImageAddr, end: int, name: seq<Byte>)
    requires addr % 4 == 0 && addr + HEADER_OFFSET + HEADER_SIZE <= end <= FLASH_FINISH
    requires Agree(m, n, PRELDR_START, PRELDR_END) && Agree(m, n, addr, end)
    requires RegionOk(m, PRELDR_START) && Contained(m, PRELDR_START, PRELDR_END)
    requires ImageLock(m, addr, name) == NONE && Contained(m, addr, end)
    ensures ImageLock(n, addr, name) == NONE && Contained(n, addr, end)
  {
    hide RegionLock, Field, Contained, Agree, Mem, HeaderWord, FieldStrings, Lookup;
    RegionCheckIsLocal(m, n, PRELDR_START, PRELDR_END, PROD);
    RegionCheckIsLocal(m, n, addr, end, PROD);
    RegionCheckIsLocal(m, n, addr, end, PROD_NAME);
  }

  lemma UnlockedIsOk(m: Bus, addr: ImageAddr, name: seq<Byte>)
    requires ImageLock(m, addr, name) == NONE
    ensures RegionOk(m, addr)
  {
    hide RegionLock, Field;
  }

  /** The application is the last region: whatever passes its check lies inside it. */
  lemma AppIsContained(m: Bus)
    requires RegionOk(m, APP_START)
    ensures Contained(m, APP_START, FLASH_FINISH)
  {
    hide Mem, HeaderWord, Cat, CrcValue, CrcCovered, Strings, ValueAddr, FieldStrings;
    var ss := FieldStrings(m, APP_START, MaxSize(APP_START));
    var at, room := FieldsAddr(m, APP_START), FieldsRoom(m, APP_START, MaxSize(APP_START));
    assert |Cat(ss) + [0]| <= |Mem(m, at, room)|;
  }
}
