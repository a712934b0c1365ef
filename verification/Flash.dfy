/** The on-chip flash and its sector-wise writer (common/platform.c). */
module FlashMemory {
  import opened Bytes

  const FLASH_START := 0x0800_0000
  const FLASH_LEN := 0x0008_0000
  const FLASH_FINISH := FLASH_START + FLASH_LEN
  const CFG_SECT := 4

  type Addr = a: int | FLASH_START <= a < FLASH_FINISH witness FLASH_START

  // ----- Sectors -----

  datatype Sector = Sector(start: U32, len: U32) {
    predicate Has(addr: int) {
      start <= addr < start + len
    }

    /** The sector and `[dest, dest + n)` have a byte in common. */
    predicate Meets(dest: int, n: nat) {
      n > 0 && dest < start + len && start < dest + n
    }
  }

  const SECTORS := 8

  function Desc(i: nat): (s: Sector)
    requires i < SECTORS
  {
    match i
    case 0 => Sector(0x0800_0000, 16 * 1024)
    case 1 => Sector(0x0800_4000, 16 * 1024)
    case 2 => Sector(0x0800_8000, 16 * 1024)
    case 3 => Sector(0x0800_C000, 16 * 1024)
    case 4 => Sector(0x0801_0000, 64 * 1024)
    case 5 => Sector(0x0802_0000, 128 * 1024)
    case 6 => Sector(0x0804_0000, 128 * 1024)
    case _ => Sector(0x0806_0000, 128 * 1024)
  }

  method FindSector(addr: int) returns (r: int)
    ensures -1 <= r < SECTORS
    ensures r >= 0 ==> Desc(r).Has(addr)
    ensures r == -1 ==> forall i :: 0 <= i < SECTORS ==> !Desc(i).Has(addr)
  {
    var i := 0;
    while i < SECTORS
      invariant 0 <= i <= SECTORS
      invariant forall j :: 0 <= j < i ==> !Desc(j).Has(addr)
    {
      if addr >= Desc(i).start && addr < Desc(i).start + Desc(i).len {
        return i;
      }
      i := i + 1;
    }
    return -1;
  }

  /** The sector of an address, by its position in the sector map. */
  function SectorOf(addr: Addr): (i: nat)
    ensures i < SECTORS
  {
    if addr < 0x0801_0000 then (addr - FLASH_START) / 0x4000
    else if addr < 0x0802_0000 then 4
    else 5 + (addr - 0x0802_0000) / 0x2_0000
  }

  /** The sectors partition the flash: every address lies in exactly one. */
  lemma SectorsPartition(addr: int, i: nat)
    requires i < SECTORS
    ensures Desc(i).Has(addr) <==> FLASH_START <= addr < FLASH_FINISH && SectorOf(addr) == i
  {}

  // ----- What a successful write does -----

  type Cells = c: seq<Byte> | |c| == FLASH_LEN witness Zeros(FLASH_LEN)
  type Flags = f: seq<bool> | |f| == SECTORS witness seq(SECTORS, _ => false)

  function At(cells: Cells, addr: Addr): Byte {
    cells[addr - FLASH_START]
  }

  function Range(cells: Cells, addr: int, n: nat): (s: seq<Byte>)
    requires InFlash(addr, n)
    ensures |s| == n
  {
    cells[addr - FLASH_START..addr - FLASH_START + n]
  }

  lemma RangeAppend(cells: Cells, addr: int, n: nat, k: nat)
    requires InFlash(addr, n + k)
    ensures Range(cells, addr, n) + Range(cells, addr + n, k) == Range(cells, addr, n + k)
  {}

  lemma RangePart(cells: Cells, addr: int, n: nat, i: nat, k: nat)
    requires InFlash(addr, n) && i + k <= n
    ensures Range(cells, addr, n)[i..i + k] == Range(cells, addr + i, k)
  {
    var part := Range(cells, addr, n)[i..i + k];
    assert forall j :: 0 <= j < k ==> part[j] == cells[addr + i - FLASH_START + j];
  }

  lemma RangeNothing(cells: Cells, addr: int)
    requires InFlash(addr, 0)
    ensures Range(cells, addr, 0) == []
  {}

  predicate InFlash(dest: int, n: nat) {
    FLASH_START <= dest && dest + n <= FLASH_FINISH
  }

  /** The byte at `addr` once `src` has been written at `dest`: sectors met for the first time
      since their flag was reset come up erased. */
  function WrittenAt(cells: Cells, erased: Flags, dest: int, src: seq<Byte>, addr: Addr): Byte {
    if dest <= addr < dest + |src| then src[addr - dest]
    else if !erased[SectorOf(addr)] && Desc(SectorOf(addr)).Meets(dest, |src|) then 0xFF
    else At(cells, addr)
  }

  function WrittenCell(cells: Cells, erased: Flags, dest: int, src: seq<Byte>, k: int): Byte
    requires 0 <= k < FLASH_LEN
  {
    WrittenAt(cells, erased, dest, src, FLASH_START + k)
  }

  function Written(cells: Cells, erased: Flags, dest: int, src: seq<Byte>): (r: Cells)
    ensures forall a: Addr :: At(r, a) == WrittenAt(cells, erased, dest, src, a)
  {
    var r: seq<Byte> := seq(FLASH_LEN, k requires 0 <= k < FLASH_LEN => WrittenCell(cells, erased, dest, src, k));
    assert forall k :: 0 <= k < FLASH_LEN ==> r[k] == WrittenCell(cells, erased, dest, src, k);
    r
  }

  /** Cells are equal when they agree at every address. */
  lemma CellsEqual(c: Cells, d: Cells)
    requires forall a: Addr :: At(c, a) == At(d, a)
    ensures c == d
  {
    forall k | 0 <= k < FLASH_LEN
      ensures c[k] == d[k]
    {
      assert At(c, FLASH_START + k) == At(d, FLASH_START + k);
    }
  }

  function ErasedBy(erased: Flags, dest: int, n: nat): (r: Flags)
    ensures forall i :: 0 <= i < SECTORS ==> r[i] == (erased[i] || Desc(i).Meets(dest, n))
  {
    seq(SECTORS, i requires 0 <= i < SECTORS => erased[i] || Desc(i).Meets(dest, n))
  }

  /** Consecutive writes add up to one write of the concatenation. */
  lemma WrittenAppend(cells: Cells, erased: Flags, dest: int, a: seq<Byte>, b: seq<Byte>)
    ensures Written(Written(cells, erased, dest, a), ErasedBy(erased, dest, |a|), dest + |a|, b)
         == Written(cells, erased, dest, a + b)
    ensures ErasedBy(ErasedBy(erased, dest, |a|), dest + |a|, |b|) == ErasedBy(erased, dest, |a + b|)
  {
    var mid, flags := Written(cells, erased, dest, a), ErasedBy(erased, dest, |a|);
    forall addr: Addr
      ensures WrittenAt(mid, flags, dest + |a|, b, addr) == WrittenAt(cells, erased, dest, a + b, addr)
    {
      SectorsPartition(addr, SectorOf(addr));
    }
    CellsEqual(Written(mid, flags, dest + |a|, b), Written(cells, erased, dest, a + b));
  }

  lemma WrittenNothing(cells: Cells, erased: Flags, dest: int)
    ensures Written(cells, erased, dest, []) == cells
    ensures ErasedBy(erased, dest, 0) == erased
  {
    CellsEqual(Written(cells, erased, dest, []), cells);
  }

  // ----- A session: successful writes since the erase flags were reset -----

  datatype WriteCall = WriteCall(dest: int, src: seq<Byte>) {
    predicate Covers(addr: int) {
      dest <= addr < dest + |src|
    }
  }

  function NotErased(): (f: Flags)
    ensures forall i :: 0 <= i < SECTORS ==> !f[i]
  {
    seq(SECTORS, _ => false)
  }

  ghost function SessionFlags(ws: seq<WriteCall>): Flags {
    if ws == [] then NotErased()
    else
      var w := ws[|ws| - 1];
      ErasedBy(SessionFlags(ws[..|ws| - 1]), w.dest, |w.src|)
  }

  ghost function SessionCells(base: Cells, ws: seq<WriteCall>): Cells {
    if ws == [] then base
    else
      var w, before := ws[|ws| - 1], ws[..|ws| - 1];
      Written(SessionCells(base, before), SessionFlags(before), w.dest, w.src)
  }

  /** The index of the last write that covers `addr`, -1 if none does. */
  ghost function LastCover(ws: seq<WriteCall>, addr: int): (j: int)
    ensures -1 <= j < |ws|
    ensures j >= 0 ==> ws[j].Covers(addr)
    ensures forall k :: j < k < |ws| ==> !ws[k].Covers(addr)
  {
    if ws == [] then -1
    else if ws[|ws| - 1].Covers(addr) then |ws| - 1
    else LastCover(ws[..|ws| - 1], addr)
  }

  ghost predicate Touched(ws: seq<WriteCall>, i: nat)
    requires i < SECTORS
  {
    exists j :: 0 <= j < |ws| && Desc(i).Meets(ws[j].dest, |ws[j].src|)
  }

  /** Exactly the touched sectors carry the erase flag. */
  lemma {:induction false} FlagsAreTouched(ws: seq<WriteCall>, i: nat)
    requires i < SECTORS
    ensures SessionFlags(ws)[i] <==> Touched(ws, i)
  {
    hide Desc;
    if ws == [] {
      assert !NotErased()[i];
    } else {
      FlagsAreTouched(ws[..|ws| - 1], i);
      TouchedStep(ws, i);
    }
  }

  /** After a session every byte is the last one written there, 0xFF elsewhere in the touched
      sectors, and what it was in the others. */
  lemma {:induction false} SessionContents(base: Cells, ws: seq<WriteCall>, addr: Addr)
    ensures At(SessionCells(base, ws), addr) ==
            var j := LastCover(ws, addr);
            if j >= 0 then ws[j].src[addr - ws[j].dest]
            else if Touched(ws, SectorOf(addr)) then 0xFF
            else At(base, addr)
  {
    hide Desc, SectorOf, Written, ErasedBy;
    if ws == [] {
      assert !Touched(ws, SectorOf(addr));
    } else {
      var before := ws[..|ws| - 1];
      SessionContents(base, before, addr);
      FlagsAreTouched(before, SectorOf(addr));
      TouchedStep(ws, SectorOf(addr));
      var w, cells, flags := ws[|before|], SessionCells(base, before), SessionFlags(before);
      assert At(SessionCells(base, ws), addr) == WrittenAt(cells, flags, w.dest, w.src, addr);
      var j := LastCover(before, addr);
      if !w.Covers(addr) && j >= 0 {
        SectorsPartition(addr, SectorOf(addr));
        assert Desc(SectorOf(addr)).Meets(before[j].dest, |before[j].src|);
      }
    }
  }

  lemma TouchedStep(ws: seq<WriteCall>, i: nat)
    requires ws != [] && i < SECTORS
    ensures var w := ws[|ws| - 1];
            Touched(ws, i) <==> Touched(ws[..|ws| - 1], i) || Desc(i).Meets(w.dest, |w.src|)
  {
    hide Desc;
    var before := ws[..|ws| - 1];
    if j :| 0 <= j < |before| && Desc(i).Meets(before[j].dest, |before[j].src|) {
      assert ws[j] == before[j];
    }
    if j :| 0 <= j < |ws| && Desc(i).Meets(ws[j].dest, |ws[j].src|) {
      assert j < |before| ==> before[j] == ws[j];
    }
  }

  /** A byte no earlier write of the session covered is still free: programming it cannot clash. */
  lemma FreshBytesNeverClash(base: Cells, ws: seq<WriteCall>, addr: Addr, b: Byte)
    requires forall j :: 0 <= j < |ws| ==> !ws[j].Covers(addr)
    ensures !Clash(SessionCells(base, ws), SessionFlags(ws), addr, b)
  {
    SessionContents(base, ws, addr);
    FlagsAreTouched(ws, SectorOf(addr));
    assert LastCover(ws, addr) == -1;
    NorAndErased(b);
  }

  // ----- Elementary operations, the points between which power may fail -----

  datatype Op =
    | Erase(sector: nat, content: seq<Byte>, ok: bool)
    | Program(addr: Addr, value: Byte, ok: bool)
  {
    ghost predicate Wf() {
      Erase? ==>
        && sector < SECTORS && |content| == Desc(sector).len && InFlash(Desc(sector).start, |content|)
        && (ok ==> forall k :: 0 <= k < |content| ==> content[k] == 0xFF)
    }

    /** The operation changes nothing outside sector `i`. */
    predicate Within(i: nat) {
      match this
      case Erase(s, _, _) => s == i
      case Program(a, _, _) => SectorOf(a) == i
    }
  }

  /** `content` and `value` are what the cells hold afterwards, whether or not the hardware reported
      success. */
  ghost function Apply(cells: Cells, op: Op): (r: Cells)
    requires op.Wf()
    ensures forall a: Addr :: !op.Within(SectorOf(a)) ==> At(r, a) == At(cells, a)
  {
    match op
    case Erase(s, content, _) => Splice(cells, Desc(s).start, content)
    case Program(a, b, _) => cells[a - FLASH_START := b]
  }

  function Splice(cells: Cells, dest: int, s: seq<Byte>): (r: Cells)
    requires InFlash(dest, |s|)
    ensures forall a: Addr :: At(r, a) == if dest <= a < dest + |s| then s[a - dest] else At(cells, a)
  {
    var k := dest - FLASH_START;
    cells[..k] + s + cells[k + |s|..]
  }

  lemma SpliceSector(cells: Cells, i: nat, content: seq<Byte>)
    requires i < SECTORS && |content| == Desc(i).len && InFlash(Desc(i).start, |content|)
    ensures forall a: Addr :: At(Splice(cells, Desc(i).start, content), a) ==
                              if Desc(i).Has(a) then content[a - Desc(i).start] else At(cells, a)
    ensures forall a: Addr :: SectorOf(a) == i <==> Desc(i).Has(a)
  {
    forall a: Addr
      ensures SectorOf(a) == i <==> Desc(i).Has(a)
    {
      SectorsPartition(a, i);
    }
  }

  ghost predicate OpsWf(ops: seq<Op>) {
    forall i :: 0 <= i < |ops| ==> ops[i].Wf()
  }

  ghost function ApplyAll(cells: Cells, ops: seq<Op>): Cells
    requires OpsWf(ops)
  {
    if ops == [] then cells else Apply(ApplyAll(cells, ops[..|ops| - 1]), ops[|ops| - 1])
  }

  /** How often sector `i` is erased. */
  function EraseCount(ops: seq<Op>, i: nat): nat {
    if ops == [] then 0
    else
      var op := ops[|ops| - 1];
      EraseCount(ops[..|ops| - 1], i) + if op.Erase? && op.sector == i then 1 else 0
  }

  lemma {:induction false} EraseCountAppend(a: seq<Op>, b: seq<Op>, i: nat)
    ensures EraseCount(a + b, i) == EraseCount(a, i) + EraseCount(b, i)
    decreases |b|
  {
    if b == [] {
      assert a + b == a;
    } else {
      assert (a + b)[..|a + b| - 1] == a + b[..|b| - 1];
      EraseCountAppend(a, b[..|b| - 1], i);
    }
  }

  /** A sector is erased exactly once when its flag rises, and else never; no flag falls. */
  ghost predicate EraseOnce(before: Flags, ops: seq<Op>, after: Flags) {
    forall i: nat :: i < SECTORS ==>
      (before[i] ==> after[i]) && EraseCount(ops, i) == if after[i] && !before[i] then 1 else 0
  }

  lemma EraseOnceNothing(flags: Flags)
    ensures EraseOnce(flags, [], flags)
  {}

  lemma EraseOnceAppend(f: Flags, a: seq<Op>, g: Flags, b: seq<Op>, h: Flags)
    requires EraseOnce(f, a, g) && EraseOnce(g, b, h)
    ensures EraseOnce(f, a + b, h)
  {
    hide EraseCount;
    forall i: nat | i < SECTORS
      ensures (f[i] ==> h[i]) && EraseCount(a + b, i) == if h[i] && !f[i] then 1 else 0
    {
      EraseCountAppend(a, b, i);
    }
  }

  function Flat(parts: seq<seq<Op>>): seq<Op> {
    if parts == [] then [] else Flat(parts[..|parts| - 1]) + parts[|parts| - 1]
  }

  /** Over any number of writes since the flags were reset, failed ones included, a sector has been
      erased once if its flag is up and not at all if it is down. */
  lemma {:induction false} SessionErases(flags: seq<Flags>, parts: seq<seq<Op>>)
    requires |flags| == |parts| + 1 && flags[0] == NotErased()
    requires forall k :: 0 <= k < |parts| ==> EraseOnce(flags[k], parts[k], flags[k + 1])
    ensures EraseOnce(NotErased(), Flat(parts), flags[|parts|])
    ensures forall i: nat :: i < SECTORS ==> EraseCount(Flat(parts), i) == if flags[|parts|][i] then 1 else 0
    decreases |parts|
  {
    hide EraseCount;
    if parts == [] {
      EraseOnceNothing(NotErased());
    } else {
      var n := |parts| - 1;
      SessionErases(flags[..n + 1], parts[..n]);
      EraseOnceAppend(NotErased(), Flat(parts[..n]), flags[n], parts[n], flags[n + 1]);
    }
  }

  /** The hardware reported success throughout. */
  ghost predicate NoFaults(ops: seq<Op>) {
    forall j :: 0 <= j < |ops| ==> ops[j].ok
  }

  lemma NoFaultsAppend(a: seq<Op>, b: seq<Op>)
    ensures NoFaults(a + b) <==> NoFaults(a) && NoFaults(b)
  {
    assert forall j :: 0 <= j < |a| ==> (a + b)[j] == a[j];
    assert forall j :: 0 <= j < |b| ==> (a + b)[|a| + j] == b[j];
  }

  lemma NoFaultsOne(op: Op)
    ensures NoFaults([op]) <==> op.ok
  {
    assert [op][0] == op;
  }

  lemma NoFaultsNothing()
    ensures NoFaults([])
  {}

  /** The bits two numbers below sixteen have in common. */
  function CommonBits(a: nat, b: nat): (r: nat)
    requires a < 16 && b < 16
    ensures r < 16
  {
    ((a as bv4) & (b as bv4)) as nat
  }

  /** NOR programming only clears bits. */
  function NorAnd(cell: Byte, b: Byte): Byte {
    16 * CommonBits(cell as nat / 16, b as nat / 16) + CommonBits(cell as nat % 16, b as nat % 16)
  }

  lemma CommonWithAll(b: nat)
    requires b < 16
    ensures CommonBits(15, b) == b
  {}

  lemma NorAndErased(b: Byte)
    ensures NorAnd(0xFF, b) == b
  {
    hide CommonBits;
    CommonWithAll(b as nat / 16);
    CommonWithAll(b as nat % 16);
  }

  lemma HalfCleared(a: nat, b: nat)
    requires a < 16 && b < 16
    ensures CommonBits(a, b) <= a && CommonBits(a, b) <= b
    ensures CommonBits(CommonBits(a, b), b) == CommonBits(a, b)
    ensures CommonBits(a, 15) == a && CommonBits(a, 0) == 0
  {
    var x, y := a as bv4, b as bv4;
    assert (x & y) <= x && (x & y) <= y && ((x & y) & y) == (x & y);
  }

  /** Programming never sets a bit, and programming the same byte again changes nothing. */
  lemma ProgrammingClears(cell: Byte, b: Byte)
    ensures NorAnd(cell, b) <= cell && NorAnd(cell, b) <= b && NorAnd(NorAnd(cell, b), b) == NorAnd(cell, b)
    ensures NorAnd(cell, 0xFF) == cell && NorAnd(cell, 0) == 0
  {
    hide CommonBits;
    HalfCleared(cell as nat / 16, b as nat / 16);
    HalfCleared(cell as nat % 16, b as nat % 16);
  }

  /** `platform_flash_read`: fails outside the flash, and for a range that ends with its last byte. */
  function ReadFrom(cells: Cells, addr: U32, n: nat): Option<seq<Byte>>
    requires addr + n < U32_MOD
  {
    if addr < FLASH_START || addr + n >= FLASH_FINISH then None else Some(Range(cells, addr, n))
  }

  /** What a successful write put down is read back, in one piece or any part of it, exactly unless
      the part ends with the last byte of the flash. */
  lemma ReadBack(cells: Cells, erased: Flags, dest: int, src: seq<Byte>, from: nat, n: nat)
    requires InFlash(dest, |src|) && from + n <= |src|
    ensures ReadFrom(Written(cells, erased, dest, src), dest + from, n) ==
            if dest + from + n < FLASH_FINISH then Some(src[from..from + n]) else None
  {
    if dest + from + n < FLASH_FINISH {
      var got, want := Range(Written(cells, erased, dest, src), dest + from, n), src[from..from + n];
      forall k | 0 <= k < n
        ensures got[k] == want[k]
      {
        WrittenHere(cells, erased, dest, src, from + k);
      }
      assert got == want;
    }
  }

  lemma WrittenHere(cells: Cells, erased: Flags, dest: int, src: seq<Byte>, k: nat)
    requires InFlash(dest, |src|) && k < |src|
    ensures At(Written(cells, erased, dest, src), dest + k) == src[k]
  {}

  class Flash {
    var cells: Cells
    var erased: Flags
    /** Every elementary operation since construction, on top of `initial`. */
    ghost const initial: Cells
    ghost var ops: seq<Op>

    ghost predicate Traced()
      reads this
    {
      OpsWf(ops) && cells == ApplyAll(initial, ops)
    }

    ghost predicate Valid()
      reads this
    {
      Traced()
    }

    constructor (content: Cells)
      ensures Valid() && cells == content && ops == []
      ensures erased == NotErased()
    {
      cells, erased := content, NotErased();
      ops, initial := [], content;
    }

    function Read(addr: U32, n: nat): Option<seq<Byte>>
      requires addr + n < U32_MOD
      reads this
    {
      ReadFrom(cells, addr, n)
    }

    method EraseFlagReset()
      requires Valid()
      modifies this`erased
      ensures Valid()
      ensures erased == NotErased()
    {
      var i := 0;
      while i < SECTORS
        invariant 0 <= i <= SECTORS
        invariant Valid()
        invariant forall j :: 0 <= j < i ==> !erased[j]
      {
        erased := erased[i := false];
        i := i + 1;
      }
    }

    method EraseFlagResetSectCfg()
      requires Valid()
      modifies this`erased
      ensures Valid()
      ensures erased == old(erased)[CFG_SECT := false]
    {
      erased := erased[CFG_SECT := false];
    }

    /** The hardware's sector erase. On a fault the sector's content is unknown. */
    method EraseSector(i: nat) returns (ok: bool, ghost op: Op)
      requires i < SECTORS && Traced()
      modifies this`cells, this`ops
      ensures Traced() && ops == old(ops) + [op]
      ensures op.Erase? && op.sector == i && op.ok == ok
      ensures forall a: Addr :: SectorOf(a) != i ==> At(cells, a) == old(At(cells, a))
      ensures ok ==> forall a: Addr :: SectorOf(a) == i ==> At(cells, a) == 0xFF
    {
      hide Splice, SectorOf, ApplyAll;
      var len := Desc(i).len;
      assert InFlash(Desc(i).start, len);
      var content: seq<Byte> := seq(len, _ => 0xFF);
      ok := *;
      if !ok {
        assert |Zeros(len)| == len;
        content :| |content| == len;
      }
      op := Erase(i, content, ok);
      Extend(op);
      cells := Splice(cells, Desc(i).start, content);
      ops := ops + [op];
      SpliceSector(old(cells), i, content);
    }

    /** The hardware's byte program. On a fault the cell's content is unknown. */
    method ProgramByte(a: Addr, b: Byte) returns (ok: bool, ghost op: Op)
      requires Traced()
      modifies this`cells, this`ops
      ensures Traced() && ops == old(ops) + [op]
      ensures op.Program? && op.addr == a && op.ok == ok
      ensures cells == old(cells)[a - FLASH_START := op.value]
      ensures ok ==> op.value == NorAnd(old(At(cells, a)), b)
    {
      var value := NorAnd(At(cells, a), b);
      ok := *;
      if !ok {
        value := *;
      }
      op := Program(a, value, ok);
      Extend(op);
      cells := cells[a - FLASH_START := value];
      ops := ops + [op];
    }

    lemma Extend(op: Op)
      requires Traced() && op.Wf()
      ensures OpsWf(ops + [op]) && ApplyAll(initial, ops + [op]) == Apply(cells, op)
    {
      assert (ops + [op])[..|ops + [op]| - 1] == ops;
    }

    /** 0 on success, otherwise 1 outside the flash, 2 erase fault, 4 program fault, 5 read-back mismatch. */
    method Write(dest: int, src: seq<Byte>) returns (r: int)
      requires Valid()
      modifies this`cells, this`erased, this`ops
      ensures Valid() && r in {0, 1, 2, 4, 5}
      ensures src == [] ==> r == 0
      ensures r == 0 ==> src == [] || InFlash(dest, |src|)
      ensures r == 0 ==> cells == Written(old(cells), old(erased), dest, src)
      ensures r == 0 ==> erased == ErasedBy(old(erased), dest, |src|)
      ensures r == 1 ==> !InFlash(dest, |src|)
      ensures r == 5 ==> exists i :: 0 <= i < |src| && Clash(old(cells), old(erased), dest + i, src[i])
      ensures old(ops) <= ops && MeetRange(ops[|old(ops)|..], dest, |src|)
      ensures EraseOnce(old(erased), ops[|old(ops)|..], erased)
      ensures r in {2, 4} <==> !NoFaults(ops[|old(ops)|..])
    {
      hide *;
      WrittenNothing(cells, erased, dest);
      NoOps(dest, |src|);
      EraseOnceNothing(erased);
      NoFaultsNothing();
      assert ops[|old(ops)|..] == [];
      var i := 0;
      while i < |src|
        invariant 0 <= i <= |src| && Valid()
        invariant i > 0 ==> InFlash(dest, i)
        invariant cells == Written(old(cells), old(erased), dest, src[..i])
        invariant erased == ErasedBy(old(erased), dest, i)
        invariant old(ops) <= ops && MeetRange(ops[|old(ops)|..], dest, |src|)
        invariant EraseOnce(old(erased), ops[|old(ops)|..], erased) && NoFaults(ops[|old(ops)|..])
      {
        WrittenAppend(old(cells), old(erased), dest, src[..i], [src[i]]);
        assert src[..i] + [src[i]] == src[..i + 1];
        ghost var done, before, flags := [], ops[|old(ops)|..], erased;
        r, done := WriteByte(dest + i, src[i]);
        assert ops[|old(ops)|..] == before + done;
        MeetSubrange(done, dest, |src|, i);
        MeetRangeAppend(before, done, dest, |src|);
        EraseOnceAppend(old(erased), before, flags, done, erased);
        NoFaultsAppend(before, done);
        InFlashAppend(dest, i);
        if r == 5 {
          ClashFromStart(old(cells), old(erased), dest, src[..i], dest + i, src[i]);
        }
        if r != 0 {
          return;
        }
        i := i + 1;
      }
      assert src[..i] == src;
      return 0;
    }

    /** One round of the loop: erase the sector if its flag is down, program, read back. */
    method WriteByte(dest: int, b: Byte) returns (r: int, ghost done: seq<Op>)
      requires Valid()
      modifies this`cells, this`erased, this`ops
      ensures Valid() && r in {0, 1, 2, 4, 5}
      ensures r == 0 ==> InFlash(dest, 1)
      ensures r == 0 ==> cells == Written(old(cells), old(erased), dest, [b])
      ensures r == 0 ==> erased == ErasedBy(old(erased), dest, 1)
      ensures r == 1 ==> !InFlash(dest, 1)
      ensures r == 5 ==> Clash(old(cells), old(erased), dest, b)
      ensures ops == old(ops) + done && MeetRange(done, dest, 1)
      ensures EraseOnce(old(erased), done, erased) && (r in {2, 4} <==> !NoFaults(done))
    {
      hide Written, ErasedBy, Apply, ApplyAll, OpsWf, Desc, SectorOf, NorAnd, MeetRange, MeetsRange, EraseOnce,
           NoFaults;
      NoOps(dest, 1);
      EraseOnceNothing(erased);
      NoFaultsNothing();
      var sect := FindSector(dest);
      if sect < 0 {
        NotInFlash(dest);
        return 1, [];
      }
      SectorsPartition(dest, sect);
      var prepared;
      prepared, done := Prepare(sect);
      ByteWritten(old(cells), old(erased), dest, b, sect, cells);
      OpsMeet(done, dest, sect);
      if !prepared {
        return 2, done;
      }
      var ok;
      ghost var op;
      ok, op := ProgramByte(dest, b);
      OpsMeet([op], dest, sect);
      MeetRangeAppend(done, [op], dest, 1);
      ProgramErasesNothing(erased, op);
      EraseOnceAppend(old(erased), done, erased, [op], erased);
      NoFaultsOne(op);
      NoFaultsAppend(done, [op]);
      done := done + [op];
      if !ok {
        return 4, done;
      }
      NorAndErased(b);
      if At(cells, dest) != b {
        return 5, done;
      }
      return 0, done;
    }

    /** Erase sector `i` unless its flag says it already was. */
    method Prepare(i: nat) returns (ok: bool, ghost done: seq<Op>)
      requires Valid() && i < SECTORS
      modifies this`cells, this`erased, this`ops
      ensures Valid() && erased == old(erased)[i := true]
      ensures ok ==> Prepared(old(cells), old(erased), i, cells)
      ensures old(erased[i]) ==> ok
      ensures ops == old(ops) + done && OnlyErases(done, i)
      ensures EraseOnce(old(erased), done, erased) && (ok <==> NoFaults(done))
    {
      hide Apply, ApplyAll, Desc, SectorOf, OpsWf, EraseOnce, NoFaults;
      ok, done := true, [];
      EraseOnceNothing(erased);
      NoFaultsNothing();
      if !erased[i] {
        erased := erased[i := true];
        ghost var op;
        ok, op := EraseSector(i);
        done := [op];
        FlagRises(old(erased), i, op);
        NoFaultsOne(op);
      }
    }
  }

  ghost predicate Prepared(c0: Cells, e0: Flags, i: nat, c1: Cells)
    requires i < SECTORS
  {
    if e0[i] then c1 == c0
    else forall a: Addr :: At(c1, a) == if SectorOf(a) == i then 0xFF else At(c0, a)
  }

  ghost predicate OnlyErases(ops: seq<Op>, i: nat) {
    forall j :: 0 <= j < |ops| ==> ops[j].Erase? && ops[j].sector == i
  }

  lemma FlagRises(before: Flags, i: nat, op: Op)
    requires i < SECTORS && !before[i] && op.Erase? && op.sector == i
    ensures EraseOnce(before, [op], before[i := true])
  {
    var after: Flags := before[i := true];
    assert [op][..0] == [];
    forall k: nat | k < SECTORS
      ensures (before[k] ==> after[k]) && EraseCount([op], k) == if after[k] && !before[k] then 1 else 0
    {
      assert EraseCount([op], k) == if k == i then 1 else 0;
    }
  }

  lemma ProgramErasesNothing(flags: Flags, op: Op)
    requires op.Program?
    ensures EraseOnce(flags, [op], flags)
  {
    assert [op][..0] == [];
  }

  lemma ByteWritten(c0: Cells, e0: Flags, dest: int, b: Byte, i: nat, c1: Cells)
    requires i < SECTORS && Desc(i).Has(dest)
    ensures InFlash(dest, 1) && SectorOf(dest) == i
    ensures ErasedBy(e0, dest, 1) == e0[i := true]
    ensures Prepared(c0, e0, i, c1) ==> c1[dest - FLASH_START := b] == Written(c0, e0, dest, [b])
    ensures Prepared(c0, e0, i, c1) && !e0[i] ==> At(c1, dest) == 0xFF
  {
    SectorsPartition(dest, i);
    assert ErasedBy(e0, dest, 1) == e0[i := true] by {
      forall s | 0 <= s < SECTORS
        ensures Desc(s).Meets(dest, 1) <==> s == i
      {
        SectorsPartition(dest, s);
      }
    }
    if Prepared(c0, e0, i, c1) {
      var c2: Cells := c1[dest - FLASH_START := b];
      forall a: Addr
        ensures At(c2, a) == WrittenAt(c0, e0, dest, [b], a)
      {
        SectorsPartition(dest, SectorOf(a));
      }
      CellsEqual(c2, Written(c0, e0, dest, [b]));
    }
  }

  lemma NotInFlash(dest: int)
    requires forall i :: 0 <= i < SECTORS ==> !Desc(i).Has(dest)
    ensures !InFlash(dest, 1)
  {
    if InFlash(dest, 1) {
      SectorsPartition(dest, SectorOf(dest));
    }
  }

  /** Programming `b` over what is at `addr` cannot give `b`. */
  ghost predicate Clash(cells: Cells, erased: Flags, addr: int, b: Byte) {
    && FLASH_START <= addr < FLASH_FINISH
    && erased[SectorOf(addr)] && NorAnd(At(cells, addr), b) != b
  }

  /** The operation stays within sectors that `[dest, dest + n)` meets. */
  ghost predicate MeetsRange(op: Op, dest: int, n: nat) {
    exists s: nat :: s < SECTORS && op.Within(s) && Desc(s).Meets(dest, n)
  }

  ghost predicate MeetRange(ops: seq<Op>, dest: int, n: nat) {
    forall j :: 0 <= j < |ops| ==> MeetsRange(ops[j], dest, n)
  }

  lemma MeetSubrange(ops: seq<Op>, dest: int, n: nat, i: nat)
    requires i < n && MeetRange(ops, dest + i, 1)
    ensures MeetRange(ops, dest, n)
  {
    forall j | 0 <= j < |ops|
      ensures MeetsRange(ops[j], dest, n)
    {
      assert MeetsRange(ops[j], dest + i, 1);
      var s: nat :| s < SECTORS && ops[j].Within(s) && Desc(s).Meets(dest + i, 1);
      assert Desc(s).Meets(dest, n);
    }
  }

  lemma NoOps(dest: int, n: nat)
    ensures MeetRange([], dest, n)
  {}

  lemma OpsMeet(ops: seq<Op>, dest: int, i: nat)
    requires i < SECTORS && Desc(i).Has(dest)
    requires forall j :: 0 <= j < |ops| ==>
               (ops[j].Program? && ops[j].addr == dest) || (ops[j].Erase? && ops[j].sector == i)
    ensures MeetRange(ops, dest, 1)
  {
    SectorsPartition(dest, i);
    forall j | 0 <= j < |ops|
      ensures MeetsRange(ops[j], dest, 1)
    {
      assert ops[j].Within(i) && Desc(i).Meets(dest, 1);
    }
  }

  /** A clash after a write was one before it, unless at a byte just written: what the write itself
      erased is free. */
  lemma ClashFromStart(cells: Cells, erased: Flags, dest: int, a: seq<Byte>, addr: int, b: Byte)
    requires Clash(Written(cells, erased, dest, a), ErasedBy(erased, dest, |a|), addr, b)
    requires !(dest <= addr < dest + |a|)
    ensures Clash(cells, erased, addr, b)
  {
    NorAndErased(b);
  }

  lemma MeetWider(ops: seq<Op>, dest: int, n: nat, wide: int, m: nat)
    requires MeetRange(ops, dest, n)
    requires wide <= dest && dest + n <= wide + m
    ensures MeetRange(ops, wide, m)
  {
    forall j | 0 <= j < |ops|
      ensures MeetsRange(ops[j], wide, m)
    {
      assert MeetsRange(ops[j], dest, n);
      var s: nat :| s < SECTORS && ops[j].Within(s) && Desc(s).Meets(dest, n);
      assert Desc(s).Meets(wide, m);
    }
  }

  lemma MeetRangeAppend(a: seq<Op>, b: seq<Op>, dest: int, n: nat)
    requires MeetRange(a, dest, n) && MeetRange(b, dest, n)
    ensures MeetRange(a + b, dest, n)
  {}

  lemma InFlashAppend(dest: int, i: nat)
    ensures (i == 0 || InFlash(dest, i)) && InFlash(dest + i, 1) ==> InFlash(dest, i + 1)
    ensures forall n :: i < n && InFlash(dest, n) ==> InFlash(dest + i, 1)
  {}
}
