/** Emitting bytes to the configuration region through the 32-byte flush buffer
    (`flush_data_calc_crc` in common/config_system/config_system.c). */
module ConfigEmitter {
  import opened Bytes
  import opened Crc
  import opened FlashMemory
  import opened Layout
  import opened ConfigFormat

  const FLUSH_SIZE := 32

  /** Every flash operation since `before` lies in the configuration region's sector. */
  ghost predicate InCfg(before: seq<Op>, after: seq<Op>) {
    before <= after && MeetRange(after[|before|..], CFG_ORIGIN, CFG_SIZE)
  }

  /** That is sector 4, and no other. */
  lemma OnlyItsSector(before: seq<Op>, after: seq<Op>)
    requires InCfg(before, after)
    ensures forall j :: |before| <= j < |after| ==> after[j].Within(4)
  {
    forall j | |before| <= j < |after|
      ensures after[j].Within(4)
    {
      assert MeetsRange(after[|before|..][j - |before|], CFG_ORIGIN, CFG_SIZE);
    }
  }

  /** A flash operation since `before` has failed in hardware. */
  ghost predicate Faulty(before: seq<Op>, after: seq<Op>) {
    before <= after && !NoFaults(after[|before|..])
  }

  /** `size` bytes from `data`, zeros for a null pointer. */
  function Source(data: Option<seq<Byte>>, size: nat): (s: seq<Byte>)
    requires data.Some? ==> |data.value| == size
    ensures |s| == size
  {
    if data.Some? then data.value else Zeros(size)
  }

  class Emitter {
    const flash: Flash
    const crc: CrcUnit
    const flushBuffer: array<Byte>
    var flushBufferSize: nat
    var offsetWriteData: nat

    /** Everything emitted since the session began, on top of the flash content `base`. */
    ghost var emitted: seq<Byte>
    ghost var base: Cells
    ghost var baseFlags: Flags
    ghost var opsBefore: seq<Op>

    constructor (flash: Flash, crc: CrcUnit)
      ensures this.flash == flash && this.crc == crc && fresh(flushBuffer) && flushBuffer.Length == FLUSH_SIZE
    {
      this.flash, this.crc := flash, crc;
      flushBuffer := new Byte[FLUSH_SIZE](_ => 0);
      flushBufferSize, offsetWriteData := 0, 0;
      emitted, base, baseFlags, opsBefore := [], flash.cells, flash.erased, flash.ops;
    }

    /** Flash prefix ++ flush buffer = everything emitted. */
    ghost predicate Buffered()
      reads this, flushBuffer, flash
    {
      && flash.Valid() && flushBuffer.Length == FLUSH_SIZE
      && flushBufferSize <= FLUSH_SIZE && offsetWriteData + flushBufferSize == |emitted|
      && flushBuffer[..flushBufferSize] == emitted[offsetWriteData..]
      && flash.cells == Written(base, baseFlags, CFG_ORIGIN, emitted[..offsetWriteData])
      && flash.erased == ErasedBy(baseFlags, CFG_ORIGIN, offsetWriteData)
    }

    /** The CRC unit has consumed exactly the flushed prefix. */
    ghost predicate CrcInStep()
      reads this, crc
    {
      && offsetWriteData % 4 == 0 && offsetWriteData <= |emitted|
      && crc.Valid() && crc.fed == Words(emitted[..offsetWriteData])
    }

    /** Within the configuration region the session touches nothing else, and no write there can clash. */
    ghost predicate Confined()
      reads this, flash
    {
      !baseFlags[CFG_SECT] && InCfg(opsBefore, flash.ops)
    }

    /** No flash operation of the session has failed in hardware. */
    ghost predicate Clean()
      reads this, flash
    {
      opsBefore <= flash.ops && NoFaults(flash.ops[|opsBefore|..])
    }

    /** Between two calls within a session that still fits its region. */
    ghost predicate Ready()
      reads this, flushBuffer, flash, crc
    {
      Buffered() && CrcInStep() && Confined() && Clean() && flushBufferSize < FLUSH_SIZE
    }

    /** After a hardware fault. */
    ghost predicate Failed()
      reads this, flash
    {
      flash.Valid() && Confined() && Faulty(opsBefore, flash.ops)
    }

    method Begin()
      requires flash.Valid() && flushBuffer.Length == FLUSH_SIZE
      modifies this, flash`erased, crc
      ensures Ready() && emitted == []
      ensures base == flash.cells == old(flash.cells) && opsBefore == flash.ops
      ensures baseFlags == old(flash.erased)[CFG_SECT := false]
    {
      flash.EraseFlagResetSectCfg();
      var _ := crc.Start([]);
      flushBufferSize, offsetWriteData := 0, 0;
      emitted, base, baseFlags, opsBefore := [], flash.cells, flash.erased, flash.ops;
      WrittenNothing(base, baseFlags, CFG_ORIGIN);
      NoOps(CFG_ORIGIN, CFG_SIZE);
      assert flash.ops[|opsBefore|..] == [];
      NoFaultsNothing();
    }

    /** Writes the buffer to flash and feeds it to the CRC unit. */
    method FlushOut() returns (ok: bool)
      requires Buffered() && flushBufferSize > 0 && crc.Valid()
      modifies this`flushBufferSize, this`offsetWriteData, flash, crc
      ensures ok ==> Buffered() && crc.Valid() && flushBufferSize == 0
      ensures ok && old(CrcInStep()) && old(flushBufferSize) % 4 == 0 ==> CrcInStep()
      ensures old(Confined()) && |emitted| <= CFG_SIZE ==> Confined() && (!ok ==> Faulty(opsBefore, flash.ops))
      ensures ok && old(Clean()) ==> Clean()
      ensures flash.Valid()
    {
      hide Written, ErasedBy, MeetRange, Words, CrcWords, Clash, Flash.Traced, NoFaults, EraseOnce;
      ghost var done, chunk := emitted[..offsetWriteData], flushBuffer[..flushBufferSize];
      WrittenAppend(base, baseFlags, CFG_ORIGIN, done, chunk);
      assert done + chunk == emitted;
      var r := flash.Write(CFG_ORIGIN + offsetWriteData, flushBuffer[..flushBufferSize]);
      if opsBefore <= old(flash.ops) {
        FaultsSoFar(opsBefore, old(flash.ops), flash.ops);
      }
      if old(Confined()) && |emitted| <= CFG_SIZE {
        StillConfined(opsBefore, old(flash.ops), flash.ops, offsetWriteData, |chunk|);
        if r in {1, 5} {
          NoClashInCfg(base, baseFlags, done, chunk);
        }
      }
      if r != 0 {
        return false;
      }
      offsetWriteData := offsetWriteData + flushBufferSize;
      var _ := crc.End(flushBuffer[..flushBufferSize]);
      flushBufferSize := 0;
      assert emitted[..offsetWriteData] == emitted;
      if old(CrcInStep()) && old(flushBufferSize) % 4 == 0 {
        WordsAppend(done, chunk);
      }
      return true;
    }

    /** `flush_data_calc_crc`: `data` None stands for a null pointer, which emits zeros. */
    method FlushDataCalcCrc(data: Option<seq<Byte>>, size: nat, flushAll: bool) returns (sts: Status)
      requires Buffered() && flushBufferSize < FLUSH_SIZE && crc.Valid()
      requires data.Some? ==> |data.value| == size
      modifies this`flushBufferSize, this`offsetWriteData, this`emitted, flushBuffer, flash, crc
      ensures sts in {OK, STORAGE_WRITE_ERROR, STORAGE_OUT_OF_BOUNDS} && flash.Valid()
      ensures sts == STORAGE_OUT_OF_BOUNDS <==> old(offsetWriteData) + size > CFG_SIZE
      ensures sts == OK ==> Buffered() && crc.Valid() && emitted == old(emitted) + Source(data, size)
      ensures sts == OK ==> flushBufferSize < FLUSH_SIZE && (flushAll && size > 0 ==> flushBufferSize == 0)
      ensures sts == OK && old(CrcInStep()) && !flushAll ==> CrcInStep()
      ensures old(Confined()) && old(|emitted|) + size <= CFG_SIZE ==>
                Confined() && (sts != OK ==> sts == STORAGE_WRITE_ERROR && Faulty(opsBefore, flash.ops))
      ensures sts == OK && old(Clean()) ==> Clean()
      ensures old(Ready()) && old(|emitted|) + size <= CFG_SIZE ==>
                (sts == OK && !flushAll ==> Ready()) && (sts != OK ==> sts == STORAGE_WRITE_ERROR && Failed())
    {
      hide Buffered, CrcInStep, Confined, Clean, Faulty, CrcUnit.Valid, Flash.Valid;
      BufferedFlash();
      if offsetWriteData + size > CFG_SIZE {
        return STORAGE_OUT_OF_BOUNDS;
      }
      ghost var bytes := Source(data, size);
      var i := 0;
      while i < size
        invariant 0 <= i <= size
        invariant Buffered() && crc.Valid() && flushBufferSize < FLUSH_SIZE
        invariant emitted == old(emitted) + bytes[..i]
        invariant flushAll && 0 < i == size ==> flushBufferSize == 0
        invariant old(CrcInStep()) && !flushAll ==> CrcInStep()
        invariant old(Confined()) && old(|emitted|) + size <= CFG_SIZE ==> Confined()
        invariant old(Clean()) ==> Clean()
      {
        Put(if data.Some? then data.value[i] else 0);
        assert bytes[..i] + [bytes[i]] == bytes[..i + 1];
        if flushBufferSize >= FLUSH_SIZE || (i == size - 1 && flushAll) {
          var ok := FlushOut();
          if !ok {
            return STORAGE_WRITE_ERROR;
          }
        }
        i := i + 1;
      }
      assert bytes[..size] == bytes;
      BufferedFlash();
      return OK;
    }

    /** One call of a writer whose total fits the region. */
    method Emit(data: Option<seq<Byte>>, size: nat) returns (sts: Status)
      requires Ready() && (data.Some? ==> |data.value| == size)
      requires |emitted| + size <= CFG_SIZE
      modifies this`flushBufferSize, this`offsetWriteData, this`emitted, flushBuffer, flash, crc
      ensures sts == OK ==> Ready() && emitted == old(emitted) + Source(data, size)
      ensures sts != OK ==> sts == STORAGE_WRITE_ERROR && Failed()
    {
      hide Buffered, Confined, Clean, Faulty, CrcUnit.Valid;
      sts := FlushDataCalcCrc(data, size, false);
    }

    /** Padding, then the CRC of everything before it, then the rest of the buffer to flash. */
    method Finish(zeros: nat) returns (sts: Status)
      requires Ready() && (|emitted| + zeros) % 4 == 0 && |emitted| + zeros + 4 <= CFG_SIZE
      modifies this`flushBufferSize, this`offsetWriteData, this`emitted, flushBuffer, flash, crc
      ensures var sized := old(emitted) + Zeros(zeros);
              sts == OK ==> flash.cells == Written(base, baseFlags, CFG_ORIGIN, sized + Le32(CrcValue(sized)))
      ensures flash.Valid() && Confined()
      ensures if sts == OK then Clean() else sts == STORAGE_WRITE_ERROR && Faulty(opsBefore, flash.ops)
    {
      hide Buffered, Confined, Clean, Faulty, CrcUnit.Valid, Written, CrcValue, Le32;
      sts := Emit(None, zeros);
      if sts != OK { return; }
      ghost var sized := emitted;
      assert Number(CrcBytes(sized)) == CrcValue(sized) by { CrcValueIs(sized); }
      var w := FinalCrc();
      sts := FlushDataCalcCrc(Some(Le32(Number(w))), 4, true);
      if sts == OK {
        FullyFlushed();
      }
    }

    lemma FullyFlushed()
      requires Buffered() && flushBufferSize == 0
      ensures flash.cells == Written(base, baseFlags, CFG_ORIGIN, emitted)
    {
      assert emitted[..offsetWriteData] == emitted;
    }

    /** The CRC over flushed prefix and buffer; the CRC unit runs ahead of the flash from here on. */
    method FinalCrc() returns (w: bv32)
      requires Ready() && |emitted| % 4 == 0
      modifies crc
      ensures Buffered() && Confined() && Clean() && crc.Valid() && w == CrcBytes(emitted)
    {
      hide Written, ErasedBy, MeetRange, Words, CrcWords, Flash.Traced, NoFaults;
      StartThenEnd(emitted[..offsetWriteData], emitted[offsetWriteData..]);
      assert emitted[..offsetWriteData] + emitted[offsetWriteData..] == emitted;
      FedIsCrc(crc, emitted[..offsetWriteData]);
      w := crc.End(flushBuffer[..flushBufferSize]);
    }

    lemma CrcValueIs(s: seq<Byte>)
      ensures CrcValue(s) == Number(CrcBytes(s))
    {}

    lemma FedIsCrc(c: CrcUnit, s: seq<Byte>)
      requires c.Valid() && c.fed == Words(s)
      ensures c.dr == CrcBytes(s)
    {}

    lemma FailedIs()
      requires Failed()
      ensures flash.Valid() && Confined() && Faulty(opsBefore, flash.ops)
    {}

    lemma ConfinedOps()
      requires Confined()
      ensures InCfg(opsBefore, flash.ops)
    {}

    lemma ReadyIs()
      requires Ready()
      ensures flash.Valid() && Confined() && Clean() && flushBuffer.Length == FLUSH_SIZE
    {}

    lemma BufferedFlash()
      requires Buffered()
      ensures flash.Valid() && offsetWriteData <= |emitted|
    {}

    method Put(b: Byte)
      requires Buffered() && flushBufferSize < FLUSH_SIZE
      modifies this`flushBufferSize, this`emitted, flushBuffer
      ensures Buffered() && flushBufferSize == old(flushBufferSize) + 1 && emitted == old(emitted) + [b]
      ensures old(CrcInStep()) ==> CrcInStep()
      ensures old(Confined()) ==> Confined()
      ensures old(Clean()) ==> Clean()
    {
      hide Written, ErasedBy, Words, Flash.Valid, NoFaults;
      flushBuffer[flushBufferSize] := b;
      flushBufferSize := flushBufferSize + 1;
      emitted := emitted + [b];
      assert flushBuffer[..flushBufferSize] == old(flushBuffer[..flushBufferSize]) + [b];
      assert emitted[offsetWriteData..] == old(emitted[offsetWriteData..]) + [b];
      assert emitted[..offsetWriteData] == old(emitted[..offsetWriteData]);
    }
  }

  lemma FaultsSoFar(start: seq<Op>, before: seq<Op>, after: seq<Op>)
    requires start <= before
    ensures before <= after ==>
              start <= after
              && (NoFaults(after[|start|..]) <==> NoFaults(before[|start|..]) && NoFaults(after[|before|..]))
  {
    if before <= after {
      NoFaultsAppend(before[|start|..], after[|before|..]);
      assert after[|start|..] == before[|start|..] + after[|before|..];
    }
  }

  lemma StillConfined(start: seq<Op>, before: seq<Op>, after: seq<Op>, off: nat, n: nat)
    requires start <= before <= after && off + n <= CFG_SIZE
    requires MeetRange(before[|start|..], CFG_ORIGIN, CFG_SIZE)
    requires MeetRange(after[|before|..], CFG_ORIGIN + off, n)
    ensures MeetRange(after[|start|..], CFG_ORIGIN, CFG_SIZE)
  {
    MeetWider(after[|before|..], CFG_ORIGIN + off, n, CFG_ORIGIN, CFG_SIZE);
    MeetRangeAppend(before[|start|..], after[|before|..], CFG_ORIGIN, CFG_SIZE);
    assert after[|start|..] == before[|start|..] + after[|before|..];
  }

  lemma NoClashInCfg(base: Cells, flags: Flags, done: seq<Byte>, chunk: seq<Byte>)
    requires !flags[CFG_SECT] && |done| + |chunk| <= CFG_SIZE
    ensures InFlash(CFG_ORIGIN + |done|, |chunk|)
    ensures forall i :: 0 <= i < |chunk| ==>
              !Clash(Written(base, flags, CFG_ORIGIN, done), ErasedBy(flags, CFG_ORIGIN, |done|),
                     CFG_ORIGIN + |done| + i, chunk[i])
  {
    forall i | 0 <= i < |chunk|
      ensures !Clash(Written(base, flags, CFG_ORIGIN, done), ErasedBy(flags, CFG_ORIGIN, |done|),
                     CFG_ORIGIN + |done| + i, chunk[i])
    {
      var addr := CFG_ORIGIN + |done| + i;
      assert SectorOf(addr) == CFG_SECT;
      if Clash(Written(base, flags, CFG_ORIGIN, done), ErasedBy(flags, CFG_ORIGIN, |done|), addr, chunk[i]) {
        ClashFromStart(base, flags, CFG_ORIGIN, done, addr, chunk[i]);
      }
    }
  }
}
