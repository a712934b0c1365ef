/** Checking firmware images in flash (common/fw_header/fw_header_utils.c and fw_headers_variables.c). */
module FwHeader {
  import opened Bytes
  import opened Crc
  import opened FlashMemory
  import opened Layout
  import opened Decimal
  import opened FwFields

  datatype Lock =
    | NONE
    | BY_CRC
    | BY_ADDR
    | BY_SIZE_SMALL
    | BY_ZERO_FIELDS_COUNT
    | NO_PROD_FIELD
    | NO_PROD_NAME_FIELD
    | PROD_MISMATCH
    | PROD_NAME_FAULT

  const HEADER_SIZE := 16

  // Field keys and product names, in ASCII.
  const PROD: seq<Byte> := [112, 114, 111, 100]
  const PROD_NAME: seq<Byte> := [112, 114, 111, 100, 95, 110, 97, 109, 101]
  const VER_MAJ: seq<Byte> := [118, 101, 114, 95, 109, 97, 106]
  const VER_MIN: seq<Byte> := [118, 101, 114, 95, 109, 105, 110]
  const VER_PAT: seq<Byte> := [118, 101, 114, 95, 112, 97, 116]
  const LDR_NAME: seq<Byte> := [115, 104, 95, 103, 119, 95, 108, 100, 114]
  const APP_NAME: seq<Byte> := [115, 104, 95, 103, 119, 95, 97, 112, 112]

  // ----- Version numbers in memory -----

  /** How many digits the string at `s` has, None when the parser gives up. */
  function ScanDigits(m: Bus, s: U32, i: nat := 0): (k: Option<nat>)
    requires s + 12 < U32_MOD && i <= 10 && (i > 0 ==> FLASH_START <= s)
    ensures k.Some? ==> i <= k.value <= 10 && (k.value > i ==> InFlash(s, k.value))
    decreases 10 - i
  {
    if i == 10 then Some(10)
    else if !InFlash(s + i, 2) then None
    else if Rd(m, s + i) == 0 then Some(i)
    else if !IsDigit(Rd(m, s + i)) then None
    else if i == 9 && Rd(m, s + 10) != 0 then None
    else ScanDigits(m, s, i + 1)
  }

  function NumberAt(m: Bus, s: U32): int
    requires s + 12 < U32_MOD
  {
    match ScanDigits(m, s)
    case None => 0
    case Some(k) => if k == 0 then 0 else ParseDigits(Mem(m, s, k))
  }

  method GetUint32NumberFromStr(m: Bus, s: U32) returns (number: nat)
    requires s + 12 < U32_MOD
    ensures number == NumberAt(m, s) && number < U32_MOD
  {
    hide Scanned, ScanDigits, Mem, Rd, AllDigits, ParseDigits;
    number := 0;
    var countDigit := 0;
    var i := 0;
    ScanStart(m, s);
    while i < 10
      invariant 0 <= i <= 10 && countDigit == i && Scanned(m, s, i)
    {
      ScanStep(m, s, i);
      if FlashCheckRange(s + i, 2) {
        return 0;
      }
      if !IsDigit(Rd(m, s + i)) && Rd(m, s + i) != 0 {
        return 0;
      }
      if Rd(m, s + i) == 0 {
        break;
      }
      if i == 10 - 1 && Rd(m, s + i + 1) != 0 {
        return 0;
      }
      countDigit := countDigit + 1;
      i := i + 1;
    }
    ScanEnd(m, s, i);
    if countDigit > 0 {
      number := SumDigits(m, s, countDigit);
    }
  }

  /** The first loop at index `i`: that many digits have been seen. */
  ghost predicate Scanned(m: Bus, s: U32, i: nat)
    requires s + 12 < U32_MOD
  {
    && i <= 10 && (i > 0 ==> InFlash(s, i) && AllDigits(Mem(m, s, i)))
    && ScanDigits(m, s) == ScanDigits(m, s, i)
  }

  lemma ScanStart(m: Bus, s: U32)
    requires s + 12 < U32_MOD
    ensures Scanned(m, s, 0)
  {}

  lemma ScanStep(m: Bus, s: U32, i: nat)
    requires s + 12 < U32_MOD && Scanned(m, s, i) && i < 10
    ensures !InFlash(s + i, 2) ==> NumberAt(m, s) == 0
    ensures InFlash(s + i, 2) ==>
              var c := Rd(m, s + i);
              && (c != 0 && !IsDigit(c) ==> NumberAt(m, s) == 0)
              && (c == 0 ==> ScanDigits(m, s) == Some(i))
              && (IsDigit(c) && i == 9 && Rd(m, s + 10) != 0 ==> NumberAt(m, s) == 0)
              && (IsDigit(c) && !(i == 9 && Rd(m, s + 10) != 0) ==> Scanned(m, s, i + 1))
  {
    hide ParseDigits;
    if InFlash(s + i, 2) && s >= FLASH_START {
      assert Mem(m, s, i + 1) == Mem(m, s, i) + [Rd(m, s + i)];
    }
  }

  lemma ScanEnd(m: Bus, s: U32, i: nat)
    requires s + 12 < U32_MOD && Scanned(m, s, i) && (i == 10 || ScanDigits(m, s) == Some(i))
    ensures i == 0 ==> NumberAt(m, s) == 0
    ensures i > 0 ==> InFlash(s, i) && AllDigits(Mem(m, s, i)) && NumberAt(m, s) == ParseDigits(Mem(m, s, i))
  {
    hide ParseDigits;
  }

  /** The second loop: digits from the last to the first, rank and products in 32 bits. */
  method SumDigits(m: Bus, s: U32, countDigit: nat) returns (number: nat)
    requires 0 < countDigit <= 10 && InFlash(s, countDigit)
    requires AllDigits(Mem(m, s, countDigit))
    ensures number == ParseDigits(Mem(m, s, countDigit)) && number < U32_MOD
  {
    hide Summed, ParseDigits, Pow10, AllDigits;
    ghost var ds := Mem(m, s, countDigit);
    number := 0;
    var rank := 1;
    var i := countDigit;
    SumStart(ds);
    while i > 0
      invariant 0 <= i <= countDigit && Summed(ds, i, rank, number)
    {
      SumStep(ds, i, rank, number);
      assert Rd(m, s + i - 1) == ds[i - 1];
      var num := Digit(Rd(m, s + i - 1)) * rank % U32_MOD;
      rank := rank * 10 % U32_MOD;
      if U32_MOD - 1 - number < num {
        return 0;
      }
      number := number + num;
      i := i - 1;
    }
    SumEnd(ds, rank, number);
  }

  /** The digits from `i` on have been added up; the product of a tenth digit was a 32-bit one. */
  ghost predicate Summed(ds: seq<Byte>, i: nat, rank: int, number: int) {
    && i <= |ds| <= 10 && AllDigits(ds) && 0 <= number < U32_MOD
    && (|ds| - i <= 9 ==> rank == Pow10(|ds| - i) && number == DecVal(ds[i..]))
    && (|ds| - i == 10 ==> number == ParseDigits(ds))
  }

  lemma SumStart(ds: seq<Byte>)
    requires AllDigits(ds) && |ds| <= 10
    ensures Summed(ds, |ds|, 1, 0)
  {
    assert ds[|ds|..] == [];
  }

  lemma SumEnd(ds: seq<Byte>, rank: int, number: int)
    requires Summed(ds, 0, rank, number)
    ensures number == ParseDigits(ds) && 0 <= number < U32_MOD
  {
    hide Pow10;
    assert ds[0..] == ds;
  }

  lemma SumStep(ds: seq<Byte>, i: nat, rank: int, number: int)
    requires Summed(ds, i, rank, number) && 0 < i
    ensures var num := Digit(ds[i - 1]) * rank % U32_MOD;
            if number + num >= U32_MOD then ParseDigits(ds) == 0
            else Summed(ds, i - 1, rank * 10 % U32_MOD, number + num)
  {
    hide Pow10, DecVal, AllDigits, Digit;
    if |ds| - i < 9 {
      RankStep(ds, i);
    } else {
      TopStep(ds, rank, number);
    }
  }

  /** The tenth digit. */
  lemma TopStep(ds: seq<Byte>, rank: int, number: int)
    requires Summed(ds, 1, rank, number) && |ds| == 10
    ensures rank == 1_000_000_000
    ensures var sum := number + Digit(ds[0]) * 1_000_000_000 % U32_MOD;
            ParseDigits(ds) == if sum >= U32_MOD then 0 else sum
  {
    hide Pow10, DecVal, AllDigits;
    Pow10Steps();
  }

  lemma Pow10Steps()
    ensures Pow10(0) == 1 && Pow10(1) == 10 && Pow10(9) == 1_000_000_000
  {
    Pow10Values();
  }

  /** Below the tenth digit nothing overflows. */
  lemma RankStep(ds: seq<Byte>, i: nat)
    requires 0 < i <= |ds| <= 10 && |ds| - i < 9 && AllDigits(ds)
    ensures var p, d := Pow10(|ds| - i), Digit(ds[i - 1]);
            && Pow10(|ds| - i + 1) == 10 * p < U32_MOD
            && 0 <= d * p < U32_MOD && DecVal(ds[i - 1..]) == d * p + DecVal(ds[i..]) < U32_MOD
  {
    hide DecVal, Pow10;
    var t, k := ds[i - 1..], |ds| - i;
    DecValFirst(t);
    assert t[1..] == ds[i..] && t[0] == ds[i - 1];
    DecValBound(t);
    DecValBound(ds[i..]);
    RankBound(k);
    ProductIsNat(Digit(t[0]), Pow10(k));
  }

  lemma RankBound(k: nat)
    requires k < 9
    ensures Pow10(k + 1) == 10 * Pow10(k) <= 1_000_000_000
  {
    Pow10Steps();
    Pow10Monotone(k + 1, 9);
  }

  lemma ProductIsNat(d: nat, p: nat)
    ensures d * p >= 0
  {}

  /** The number a version field prints is the number the device reads. */
  lemma PrintedNumberAt(m: Bus, s: U32, n: U32)
    requires s + 12 < U32_MOD && StrLen(m, s) >= 0 && StrAt(m, s) == Dec(n)
    requires s + StrLen(m, s) + 2 <= FLASH_FINISH
    ensures NumberAt(m, s) == n
  {
    PrintThenParse(n);
    ScanText(m, s, 0);
    assert Mem(m, s, |Dec(n)|) == StrAt(m, s);
  }

  lemma {:induction false} ScanText(m: Bus, s: U32, i: nat)
    requires s + 12 < U32_MOD && StrLen(m, s) >= 0 && AllDigits(StrAt(m, s)) && |StrAt(m, s)| <= 10
    requires s + StrLen(m, s) + 2 <= FLASH_FINISH && i <= |StrAt(m, s)|
    ensures ScanDigits(m, s, i) == Some(|StrAt(m, s)|)
    decreases |StrAt(m, s)| - i
  {
    var k := |StrAt(m, s)|;
    assert m[s - FLASH_START..][k] == 0;
    if i < k {
      assert IsDigit(StrAt(m, s)[i]);
      ScanText(m, s, i + 1);
    }
  }

  /** A string is read as a number exactly if it has one to ten characters, all of them digits. */
  lemma NumberExactly(m: Bus, s: U32)
    requires s + 12 < U32_MOD && StrLen(m, s) >= 0 && s + StrLen(m, s) + 2 <= FLASH_FINISH
    ensures var t := StrAt(m, s);
            NumberAt(m, s) == if 1 <= |t| <= 10 && AllDigits(t) then ParseDigits(t) else 0
  {
    hide ParseDigits, StrLen;
    var t := StrAt(m, s);
    StringBytes(m, s);
    ScanRest(m, s, t, 0);
    if |t| <= 10 {
      assert Mem(m, s, |t|) == t;
    }
  }

  lemma StringBytes(m: Bus, s: U32)
    requires s + 12 < U32_MOD && StrLen(m, s) >= 0 && s + StrLen(m, s) + 2 <= FLASH_FINISH
    ensures var t := StrAt(m, s);
            && FLASH_START <= s && s + |t| + 2 <= FLASH_FINISH && NoNul(t)
            && Rd(m, s + |t|) == 0 && forall k :: 0 <= k < |t| ==> Rd(m, s + k) == t[k]
  {
    var t := StrAt(m, s);
    var rest := m[s - FLASH_START..];
    assert rest[|t|] == 0 && rest[..|t|] == t;
    forall k | 0 <= k < |t|
      ensures Rd(m, s + k) == t[k]
    {
      assert rest[..|t|][k] == rest[k];
    }
  }

  lemma {:induction false} ScanRest(m: Bus, s: U32, t: seq<Byte>, i: nat)
    requires s + 12 < U32_MOD && FLASH_START <= s && s + |t| + 2 <= FLASH_FINISH && NoNul(t)
    requires Rd(m, s + |t|) == 0 && forall k :: 0 <= k < |t| ==> Rd(m, s + k) == t[k]
    requires i <= |t| && i <= 10 && (i == 10 ==> |t| == 10) && AllDigits(t[..i])
    ensures ScanDigits(m, s, i) == if |t| <= 10 && AllDigits(t) then Some(|t|) else None
    decreases 10 - i
  {
    if i == |t| {
      assert t[..i] == t;
    } else if IsDigit(t[i]) {
      assert t[..i + 1] == t[..i] + [t[i]];
      assert |t| > 10 ==> Rd(m, s + 10) == t[10] != 0;
      if i < 9 || |t| == 10 {
        ScanRest(m, s, t, i + 1);
      }
    }
  }

  // ----- One image -----

  type ImageAddr = a: int | FLASH_START <= a && a + HEADER_OFFSET + HEADER_SIZE <= FLASH_FINISH witness FLASH_START

  /** Word `k` of the header: 0 the image size, 1 its CRC, 2 where the field block begins. */
  function HeaderWord(m: Bus, addr: ImageAddr, k: nat): U32
    requires k < 4
  {
    FromLe32(Mem(m, addr + HEADER_OFFSET + 4 * k, 4))
  }

  /** `addr & 0xFFFFFFFC` */
  function AlignDown(addr: nat): nat {
    addr - addr % 4
  }

  /** What the CRC covers: the image without its header. */
  function CrcCovered(m: Bus, addr: ImageAddr, size: nat): seq<Byte>
    requires HEADER_OFFSET + HEADER_SIZE < size && InFlash(addr, size)
  {
    Mem(m, AlignDown(addr), HEADER_OFFSET)
    + Mem(m, AlignDown(addr + HEADER_OFFSET + HEADER_SIZE), size - (HEADER_OFFSET + HEADER_SIZE))
  }

  function FieldsAddr(m: Bus, addr: ImageAddr): U32 {
    (addr + HeaderWord(m, addr, 2)) % U32_MOD
  }

  function FieldsRoom(m: Bus, addr: ImageAddr, maxSize: nat): nat {
    var offset := HeaderWord(m, addr, 2);
    if maxSize < offset then 0 else maxSize - offset
  }

  function FieldsCount(m: Bus, addr: ImageAddr, maxSize: nat): int {
    var at, n := FieldsAddr(m, addr), FieldsRoom(m, addr, maxSize);
    if !InFlash(at, n) then -1 else CountOf(Mem(m, at, n))
  }

  /** All strings of the field block: key, value, key, value, ... */
  function FieldStrings(m: Bus, addr: ImageAddr, maxSize: nat): (ss: seq<seq<Byte>>)
    requires FieldsCount(m, addr, maxSize) > 0
    ensures |ss| == 2 * FieldsCount(m, addr, maxSize)
    ensures Block(Mem(m, FieldsAddr(m, addr), FieldsRoom(m, addr, maxSize)), ss)
  {
    var r := Mem(m, FieldsAddr(m, addr), FieldsRoom(m, addr, maxSize));
    BlockOf(r);
    Strings(r).value
  }

  /** The address of a field's value. */
  function FieldAddr(m: Bus, addr: ImageAddr, maxSize: nat, key: seq<Byte>): (p: nat)
    requires FieldsCount(m, addr, maxSize) > 0
  {
    ValueAddr(FieldsAddr(m, addr), FieldStrings(m, addr, maxSize), key)
  }

  function FieldsLock(m: Bus, addr: ImageAddr, maxSize: nat): Lock
    requires FieldsCount(m, addr, maxSize) > 0
  {
    if FieldAddr(m, addr, maxSize, PROD_NAME) == NULL then NO_PROD_NAME_FIELD
    else if FieldAddr(m, addr, maxSize, PROD) == NULL then NO_PROD_FIELD
    else NONE
  }

  /** The answer of `fw_header_check_region`. */
  function RegionLock(m: Bus, addr: ImageAddr, maxSize: nat): Lock {
    var size := HeaderWord(m, addr, 0);
    if size <= HEADER_OFFSET + HEADER_SIZE then BY_SIZE_SMALL
    else if !InFlash(addr, size) then BY_ADDR
    else if CrcValue(CrcCovered(m, addr, size)) != HeaderWord(m, addr, 1) then BY_CRC
    else if FieldsCount(m, addr, maxSize) <= 0 then BY_ZERO_FIELDS_COUNT
    else FieldsLock(m, addr, maxSize)
  }

  /** A value's address is that of a non-empty string of the block. */
  lemma FieldInMemory(m: Bus, addr: ImageAddr, maxSize: nat, key: seq<Byte>)
    requires addr + maxSize < U32_MOD && FieldsCount(m, addr, maxSize) > 0
    ensures var p := FieldAddr(m, addr, maxSize, key);
            if p == NULL then Lookup(FieldStrings(m, addr, maxSize), key) == None
            else FLASH_START <= p < FLASH_FINISH && StrLen(m, p) > 0 && p + StrLen(m, p) + 2 <= FLASH_FINISH
                 && Lookup(FieldStrings(m, addr, maxSize), key) == Some(StrAt(m, p))
  {
    hide Strings, Mem, Offset, StrLen, StrAt, CountOf, HeaderWord, FieldStrings;
    var ss := FieldStrings(m, addr, maxSize);
    match KeyIndex(ss, key)
    case None =>
    case Some(j) =>
      StringInMemory(m, FieldsAddr(m, addr), FieldsRoom(m, addr, maxSize), ss, 2 * j + 1);
  }

  class FwInfo {
    var locked: Lock
    const addr: ImageAddr
    var size: U32
    var fieldsCount: int
    var fieldProductPtr: int
    var fieldProductLen: int
    var fieldProductNamePtr: int
    var fieldProductNameLen: int
    var verMajor: nat
    var verMinor: nat
    var verPatch: nat

    constructor (addr: ImageAddr)
      ensures this.addr == addr
    {
      this.addr, locked := addr, NONE;
    }

    /** Product, product name and version as the field block at `addr` gives them. */
    ghost predicate Filled(m: Bus, maxSize: nat)
      requires addr + maxSize < U32_MOD && FieldsCount(m, addr, maxSize) > 0
      reads this`fieldProductPtr, this`fieldProductNamePtr, this`fieldProductLen, this`fieldProductNameLen
      reads this`verMajor, this`verMinor, this`verPatch
    {
      && fieldProductPtr == FieldAddr(m, addr, maxSize, PROD)
      && fieldProductNamePtr == FieldAddr(m, addr, maxSize, PROD_NAME)
      && fieldProductLen == LenAt(m, fieldProductPtr) && fieldProductNameLen == LenAt(m, fieldProductNamePtr)
      && verMajor == NumberOr0(m, FieldAddr(m, addr, maxSize, VER_MAJ))
      && verMinor == NumberOr0(m, FieldAddr(m, addr, maxSize, VER_MIN))
      && verPatch == NumberOr0(m, FieldAddr(m, addr, maxSize, VER_PAT))
    }

    /** `fw_header_check_region` for the linker's header offset. True when the image is locked. */
    method CheckRegion(m: Bus, crc: CrcUnit, maxSize: nat) returns (failed: bool)
      requires addr + maxSize < U32_MOD
      modifies this, crc
      ensures locked == RegionLock(m, addr, maxSize) && (failed <==> locked != NONE)
      ensures size == HeaderWord(m, addr, 0)
      ensures locked !in {BY_SIZE_SMALL, BY_ADDR, BY_CRC} ==> fieldsCount == FieldsCount(m, addr, maxSize)
      ensures locked in {NO_PROD_FIELD, NO_PROD_NAME_FIELD, NONE} ==>
                FieldsCount(m, addr, maxSize) > 0 && Filled(m, maxSize)
    {
      hide Mem, CountOf, FieldsLock, HeaderWord, CrcValue, CrcCovered, Filled;
      locked := NONE;
      size := HeaderWord(m, addr, 0);
      var imageSize := size;
      if FlashCheckRange(addr, imageSize) {
        locked := BY_ADDR;
      }
      if imageSize <= HEADER_OFFSET + HEADER_SIZE {
        locked := BY_SIZE_SMALL;
      }
      if locked != NONE {
        return true;
      }
      var computed := ImageCrc(m, crc, addr, imageSize);
      if computed != HeaderWord(m, addr, 1) {
        locked := BY_CRC;
      }
      if locked != NONE {
        return true;
      }
      var at, room := FieldsAddr(m, addr), FieldsRoom(m, addr, maxSize);
      fieldsCount := FwFieldsGetCount(m, at, room);
      if fieldsCount <= 0 {
        locked := BY_ZERO_FIELDS_COUNT;
      }
      if locked != NONE {
        return true;
      }
      ReadFields(m, maxSize);
      return locked != NONE;
    }

    /** The rest of `fw_header_check_region`, once the field block is known to be good. */
    method ReadFields(m: Bus, maxSize: nat)
      requires addr + maxSize < U32_MOD && FieldsCount(m, addr, maxSize) > 0 && locked == NONE
      modifies this`locked, this`fieldProductPtr, this`fieldProductLen, this`fieldProductNamePtr
      modifies this`fieldProductNameLen, this`verMajor, this`verMinor, this`verPatch
      ensures locked == FieldsLock(m, addr, maxSize) && Filled(m, maxSize)
    {
      hide FieldsCount, FieldAddr, NumberAt, StrLen;
      fieldProductPtr := FindField(m, addr, maxSize, PROD);
      if fieldProductPtr == NULL {
        locked := NO_PROD_FIELD;
      }
      fieldProductLen := StrLenSafe(m, fieldProductPtr);
      fieldProductNamePtr := FindField(m, addr, maxSize, PROD_NAME);
      if fieldProductNamePtr == NULL {
        locked := NO_PROD_NAME_FIELD;
      }
      fieldProductNameLen := StrLenSafe(m, fieldProductNamePtr);
      ReadVersion(m, maxSize);
    }

    method ReadVersion(m: Bus, maxSize: nat)
      requires addr + maxSize < U32_MOD && FieldsCount(m, addr, maxSize) > 0
      modifies this`verMajor, this`verMinor, this`verPatch
      ensures verMajor == NumberOr0(m, FieldAddr(m, addr, maxSize, VER_MAJ))
      ensures verMinor == NumberOr0(m, FieldAddr(m, addr, maxSize, VER_MIN))
      ensures verPatch == NumberOr0(m, FieldAddr(m, addr, maxSize, VER_PAT))
    {
      hide FieldsCount, FieldAddr, NumberAt;
      var ptr := FindField(m, addr, maxSize, VER_MAJ);
      verMajor := GetUint32NumberFromStr(m, ptr);
      ptr := FindField(m, addr, maxSize, VER_MIN);
      verMinor := GetUint32NumberFromStr(m, ptr);
      ptr := FindField(m, addr, maxSize, VER_PAT);
      verPatch := GetUint32NumberFromStr(m, ptr);
    }
  }

  function LenAt(m: Bus, p: int): int {
    if 0 <= p && p + 1 < U32_MOD then StrLen(m, p) else -1
  }

  function NumberOr0(m: Bus, p: int): int {
    if 0 <= p && p + 12 < U32_MOD then NumberAt(m, p) else 0
  }

  method ImageCrc(m: Bus, crc: CrcUnit, addr: ImageAddr, size: U32) returns (r: U32)
    requires HEADER_OFFSET + HEADER_SIZE < size && InFlash(addr, size)
    modifies crc
    ensures r == CrcValue(CrcCovered(m, addr, size))
  {
    hide CrcBytes, CrcWords, Words, Number, Mem;
    var head := Mem(m, AlignDown(addr), HEADER_OFFSET);
    var rest := Mem(m, AlignDown(addr + HEADER_OFFSET + HEADER_SIZE), size - (HEADER_OFFSET + HEADER_SIZE));
    var start := crc.Start(head);
    var end := crc.End(rest);
    StartThenEnd(head, rest);
    return Number(end);
  }

  method FindField(m: Bus, addr: ImageAddr, maxSize: nat, key: seq<Byte>) returns (p: nat)
    requires addr + maxSize < U32_MOD && FieldsCount(m, addr, maxSize) > 0 && NoNul(key)
    ensures p == FieldAddr(m, addr, maxSize, key)
    ensures p + 12 < U32_MOD
  {
    hide Mem, CountOf, HeaderWord, ValueAddr, Strings;
    FieldInMemory(m, addr, maxSize, key);
    p := FwFieldsFindByKey(m, FieldsAddr(m, addr), key, FieldsRoom(m, addr, maxSize));
  }
}
