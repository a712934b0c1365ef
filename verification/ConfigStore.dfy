/** The configuration store (common/config_system/config_system.c, built with
    CFG_SYSTEM_SAVES_NON_NATIVE_DATA = 1). */
module ConfigStore {
  import opened Bytes
  import opened Crc
  import opened FlashMemory
  import opened Layout
  import opened ConfigFormat
  import opened ConfigSpec
  import opened ConfigEmitter
  import opened ConfigTheorems

  /** The table lies in 128 KB of RAM, 16 bytes a row; 32-bit sums of its sizes cannot wrap. */
  const MAX_ROWS := 8192

  class ConfigStore {
    const em: Emitter
    var configValid: bool
    var parser: Parser
    /** g_device_config */
    var entries: Table

    ghost predicate Valid()
      reads this, em, em.flushBuffer, em.flash
    {
      && em.flash.Valid() && em.flushBuffer.Length == FLUSH_SIZE
      && TableWf(entries) && |entries| <= MAX_ROWS
      && (configValid ==> ValidateStatus(em.flash.cells) == OK)
    }

    constructor (em: Emitter, entries: Table)
      requires em.flash.Valid() && em.flushBuffer.Length == FLUSH_SIZE
      requires TableWf(entries) && |entries| <= MAX_ROWS
      ensures Valid() && this.em == em && this.entries == entries && !configValid
    {
      this.em, this.entries := em, entries;
      configValid, parser := false, IDLE;
    }

    // ----- Writing -----

    /** key, terminator, size field and value through the flush buffer. */
    method EmitEntry(key: seq<Byte>, size: U16, data: Option<seq<Byte>>) returns (sts: Status)
      requires em.Ready() && (data.Some? ==> |data.value| == size)
      requires |em.emitted| + |key| + 3 + size <= CFG_SIZE
      modifies em`flushBufferSize, em`offsetWriteData, em`emitted, em.flushBuffer, em.flash, em.crc
      ensures sts == OK ==> em.Ready() && em.emitted == old(em.emitted) + Print(Entry(key, Source(data, size)))
      ensures sts != OK ==> sts == STORAGE_WRITE_ERROR && em.Failed()
    {
      hide Emitter.Ready, Emitter.Failed, Print, Le16, Source;
      sts := em.Emit(Some(key + [0]), |key| + 1);
      if sts != OK { return; }
      sts := em.Emit(Some(Le16(size)), 2);
      if sts != OK { return; }
      sts := em.Emit(data, size);
      PrintIs(old(em.emitted), key, size, data);
    }

    method EmitNatives() returns (sts: Status)
      requires em.Ready() && TableWf(entries)
      requires |em.emitted| + |PrintAll(Natives(entries))| <= CFG_SIZE
      modifies em`flushBufferSize, em`offsetWriteData, em`emitted, em.flushBuffer, em.flash, em.crc
      ensures sts == OK ==> em.Ready() && em.emitted == old(em.emitted) + PrintAll(Natives(entries))
      ensures sts != OK ==> sts == STORAGE_WRITE_ERROR && em.Failed()
    {
      hide Emitter.Ready, Emitter.Failed, Print, PrintAll, Natives;
      NoRows();
      assert entries[..0] == [];
      var i := 0;
      while i < |entries|
        invariant 0 <= i <= |entries|
        invariant em.Ready() && em.emitted == old(em.emitted) + PrintAll(Natives(entries[..i]))
      {
        var e := entries[i];
        NativeStep(entries, i);
        NativesPrefix(entries, i + 1);
        sts := EmitEntry(e.key, e.size, e.data);
        if sts != OK { return; }
        i := i + 1;
      }
      assert entries[..i] == entries;
      sts := OK;
    }

    /** From the size field to the CRC, for entries already known to fit. */
    method Save(ghost items: seq<Item>, size: nat, zeros: nat, ghost kept: seq<Item>) returns (sts: Status)
      requires Valid() && !configValid
      requires AllWf(items) && items != [] && items == kept + Natives(entries)
      requires forall k :: 0 <= k < |items| ==> items[k].Entry?
      requires zeros == PadCount(|PrintAll(items)|) && size == |Padded(items)| && 8 + size <= CFG_SIZE
      requires em.Ready() && em.emitted == Le32(size) + PrintAll(kept)
      modifies this`configValid, em`flushBufferSize, em`offsetWriteData, em`emitted, em.flushBuffer, em.flash, em.crc
      ensures Valid() && (configValid <==> sts == OK)
      ensures sts == OK ==> Stores(em.flash.cells, items)
      ensures if sts == OK then em.Clean() else sts == STORAGE_WRITE_ERROR && Faulty(em.opsBefore, em.flash.ops)
      ensures em.Confined()
    {
      hide Emitter.Ready, Emitter.Failed, Emitter.Confined, PrintAll, Natives, Stores, ValidateStatus, StoredBytes,
           Written, Flash.Valid, Padded, PadCount, CheckTable, AllWf, TableWf, CrcValue, Le32;
      SavedText(items, kept, Natives(entries));
      sts := EmitNatives();
      if sts != OK {
        em.FailedIs();
        return;
      }
      em.ReadyIs();
      sts := em.Finish(zeros);
      if sts != OK { return; }
      SavedIsValid(em.base, em.baseFlags, items);
      StoresValid(em.flash.cells, items);
      configValid := true;
    }

    /** The path without a valid stored configuration. */
    method WriteNative() returns (sts: Status)
      requires Valid() && entries != []
      modifies this`configValid, em, em.flushBuffer, em.flash, em.crc
      ensures Valid() && (configValid <==> sts == OK)
      ensures Refusal(entries, Natives(entries)) != OK ==>
                sts == Refusal(entries, Natives(entries))
                && em.flash.cells == old(em.flash.cells) && em.flash.ops == old(em.flash.ops)
      ensures Refusal(entries, Natives(entries)) == OK ==> sts in {OK, STORAGE_WRITE_ERROR}
      ensures sts == OK ==> Stores(em.flash.cells, Natives(entries))
      ensures sts == STORAGE_WRITE_ERROR <==> Faulty(old(em.flash.ops), em.flash.ops)
      ensures InCfg(old(em.flash.ops), em.flash.ops)
    {
      hide Emitter.Ready, Emitter.Failed, Emitter.Confined, PrintAll, Natives, Stores, ValidateStatus,
           Flash.Valid, Padded, PadCount, CheckTable, AllWf, TableWf, Le32, InCfg;
      configValid := false;
      ghost var ops, items := em.flash.ops, Natives(entries);
      NothingWritten(ops);
      var size;
      sts, size := CheckEntries(entries);
      if sts != OK { return; }
      PaddedSize(items);
      if 4 + 4 + size > CFG_SIZE {
        return STORAGE_OUT_OF_BOUNDS;
      }
      var zeros := 0;
      if (8 + size) % 4 != 0 {
        zeros := 4 - (8 + size) % 4;
        size := size + zeros;
      }
      if 4 + size + 4 > CFG_SIZE {
        return STORAGE_OUT_OF_BOUNDS;
      }
      em.Begin();
      em.ReadyIs();
      sts := em.Emit(Some(Le32(size)), 4);
      if sts != OK {
        em.FailedIs();
        em.ConfinedOps();
        return;
      }
      em.ReadyIs();
      NoItems(items);
      sts := Save(items, size, zeros, []);
      em.ConfinedOps();
    }

    /** Copies another firmware's entries out of the old configuration. */
    method EmitKept(buf: seq<Byte>, ghost items: seq<Item>) returns (sts: Status)
      requires em.Ready() && AllWf(items) && |buf| >= 4 && buf[4..] == PrintAll(items)
      requires |em.emitted| + |PrintAll(Kept(items, entries))| <= CFG_SIZE
      modifies em`flushBufferSize, em`offsetWriteData, em`emitted, em.flushBuffer, em.flash, em.crc
      ensures sts == OK ==> em.Ready() && em.emitted == old(em.emitted) + PrintAll(Kept(items, entries))
      ensures sts != OK ==> sts == STORAGE_WRITE_ERROR && em.Failed()
    {
      hide Emitter.Ready, Emitter.Failed, Print, PrintAll, Kept, IsNative, AllWf;
      var off := 4;
      ghost var j := 0;
      ItemsFrom(items, entries);
      while off < |buf|
        invariant 0 <= j <= |items| && off == 4 + |PrintAll(items[..j])|
        invariant em.Ready() && em.emitted == old(em.emitted) + PrintAll(Kept(items[..j], entries))
        decreases |buf| - off
      {
        ItemStep(buf, items, entries, j);
        if buf[off] == 0 {
          off := off + 1;
        } else {
          var nameSz, dataSz := EntryHeader(buf, off, items[j]);
          var key := buf[off..off + nameSz - 1];
          var native := FindNative(key, entries);
          if !native {
            sts := EmitEntry(key, dataSz, Some(buf[off + nameSz + 2..off + nameSz + 2 + dataSz]));
            if sts != OK { return; }
          }
          off := off + nameSz + 2 + dataSz;
        }
        j := j + 1;
      }
      ItemsEnd(buf, items, j);
      sts := OK;
    }

    /** The size field and the payload it announces. */
    method ReadOld() returns (buf: seq<Byte>)
      requires SizeLegal(StoredSize(em.flash.cells))
      ensures buf == Range(em.flash.cells, CFG_ORIGIN, 4 + StoredSize(em.flash.cells))
    {
      var word := em.flash.Read(CFG_ORIGIN, 4);
      var oldDataSize := FromLe32(word.value);
      return em.flash.Read(CFG_ORIGIN, 4 + oldDataSize).value;
    }

    /** The path that keeps another firmware's entries of a valid configuration. */
    method WriteMerged() returns (sts: Status)
      requires Valid() && entries != [] && configValid
      modifies this`configValid, em, em.flushBuffer, em.flash, em.crc
      ensures Valid() && (configValid <==> sts == OK)
      ensures var items := Merged(old(StoredEntries(em.flash.cells)), entries);
              && (Refusal(entries, items) != OK ==>
                    sts == Refusal(entries, items)
                    && em.flash.cells == old(em.flash.cells) && em.flash.ops == old(em.flash.ops))
              && (Refusal(entries, items) == OK ==> sts in {OK, STORAGE_WRITE_ERROR})
              && (sts == OK ==> Stores(em.flash.cells, items))
      ensures sts == STORAGE_WRITE_ERROR <==> Faulty(old(em.flash.ops), em.flash.ops)
      ensures InCfg(old(em.flash.ops), em.flash.ops)
    {
      hide Emitter.Ready, Emitter.Failed, Emitter.Confined, PrintAll, Natives, Kept, Stores, ValidateStatus,
           StoredEntries, Flash.Valid, Padded, PadCount, CheckTable, AllWf, TableWf, Le32, InCfg, Entries,
           StoredSize, Range;
      configValid := false;
      ghost var ops := em.flash.ops;
      NothingWritten(ops);
      var size;
      sts, size := CheckEntries(entries);
      if sts != OK { return; }
      ghost var stored := StoredItems(em.flash.cells, entries);
      var buf := ReadOld();
      ghost var items := Merged(StoredEntries(em.flash.cells), entries);
      var keptSize := MergedSize(buf, entries, stored);
      size := size + keptSize;
      PaddedSize(items);
      MergedText(stored, entries);
      var zeros := 0;
      if (8 + size) % 4 != 0 {
        zeros := 4 - (8 + size) % 4;
        size := size + zeros;
      }
      if 4 + size + 4 > CFG_SIZE {
        return STORAGE_OUT_OF_BOUNDS;
      }
      em.Begin();
      em.ReadyIs();
      sts := em.Emit(Some(Le32(size)), 4);
      if sts != OK {
        em.FailedIs();
        em.ConfinedOps();
        return;
      }
      sts := EmitKept(buf, stored);
      if sts != OK {
        em.FailedIs();
        em.ConfinedOps();
        return;
      }
      em.ReadyIs();
      sts := Save(items, size, zeros, Kept(stored, entries));
      em.ConfinedOps();
    }

    /** Write configuration table to the storage. */
    method ConfigWriteStorage() returns (sts: Status)
      requires Valid()
      modifies this`configValid, em, em.flushBuffer, em.flash, em.crc
      ensures Valid()
      ensures entries == [] ==>
                sts == NO_DATA && configValid == old(configValid)
                && em.flash.cells == old(em.flash.cells) && em.flash.ops == old(em.flash.ops)
      ensures entries != [] ==> (configValid <==> sts == OK)
      ensures entries != [] ==>
                var items := Merged(if old(configValid) then old(StoredEntries(em.flash.cells)) else [], entries);
                && (Refusal(entries, items) != OK ==>
                      sts == Refusal(entries, items)
                      && em.flash.cells == old(em.flash.cells) && em.flash.ops == old(em.flash.ops))
                && (Refusal(entries, items) == OK ==> sts in {OK, STORAGE_WRITE_ERROR})
                && (sts == OK ==> Stores(em.flash.cells, items))
      ensures sts == STORAGE_WRITE_ERROR <==> Faulty(old(em.flash.ops), em.flash.ops)
      ensures InCfg(old(em.flash.ops), em.flash.ops)
      ensures entries != [] && GoodRows(entries, |entries|) ==>
                var kept := Kept(if old(configValid) then old(StoredEntries(em.flash.cells)) else [], entries);
                var room := RoundUp(8 + SizeSum(kept) + RowSum(entries));
                && (sts == OK <==> room <= 65536 && !Faulty(old(em.flash.ops), em.flash.ops))
                && (sts == STORAGE_OUT_OF_BOUNDS <==> room > 65536)
      ensures forall k :: 0 <= k < |entries| && GoodRows(entries, k) && !GoodRow(entries[k]) ==>
                sts == RowCode(entries[k])
    {
      hide Stores, ValidateStatus, StoredEntries, Refusal, Natives, InCfg, Flash.Valid, Kept, SizeSum, RowSum, RoundUp,
           GoodRows, GoodRow, RowCode;
      RefusalExactly(if configValid then StoredEntries(em.flash.cells) else [], entries);
      NothingWritten(em.flash.ops);
      if entries == [] {
        return NO_DATA;
      }
      if !configValid {
        MergedNothing(entries);
        sts := WriteNative();
      } else {
        sts := WriteMerged();
      }
    }

    // ----- Validating and reading -----

    /** `find_entry` */
    method LearnAddress(key: seq<Byte>, size: nat, offset: nat) returns (found: bool)
      modifies this`entries
      ensures entries == FindEntry(old(entries), Found(key, offset, size))
    {
      var i := 0;
      while i < |entries|
        invariant 0 <= i <= |entries| && entries == old(entries)
        invariant FindEntry(entries, Found(key, offset, size)) == FindEntry(entries, Found(key, offset, size), i)
      {
        if key == entries[i].key && size == entries[i].size {
          entries := entries[i := entries[i].(addr := offset)];
          return true;
        }
        i := i + 1;
      }
      return false;
    }

    /** One byte of `parse_data`; the return value is the status it returns, OK to go on. */
    method ParseByte(pos: nat, b: Byte) returns (sts: Status)
      modifies this`parser, this`entries
      ensures var s := Step(State(OK, old(parser), []), pos, b);
              sts == s.err && parser == s.prs && entries == Record(old(entries), s.found)
    {
      assert Record(entries, []) == entries;
      if parser.sts == FINISH && b == 0 {
        return OK;
      }
      if parser.sts == FINISH || parser.sts == KEY {
        parser := parser.(sts := KEY, name := parser.name + [b]);
        if |parser.name| >= MAX_KEY_SIZE && b != 0 {
          return KEY_LONG;
        }
        if b == 0 && |parser.name| <= 1 {
          return KEY_SHORT;
        }
        if b == 0 {
          parser := parser.(sts := LENGTH);
        }
      } else if parser.sts == LENGTH {
        parser := parser.(lengthData := parser.lengthData + if parser.lengthSize == 0 then b else 0x100 * b);
        parser := parser.(lengthSize := parser.lengthSize + 1);
        if parser.lengthSize >= 2 {
          if parser.lengthData == 0 {
            return LENGTH_DATA_ZERO;
          }
          parser := parser.(sts := VALUE, offset := pos + 1);
        }
      } else {
        if parser.offset + parser.lengthData == pos + 1 {
          var f := Found(KeyIn(parser.name), parser.offset, parser.lengthData);
          var _ := LearnAddress(f.key, f.size, f.offset);
          assert Record(old(entries), [f]) == FindEntry(old(entries), f) by { assert [f][..0] == []; }
          parser := IDLE;
        }
      }
      return OK;
    }

    /** `parse_data`: `data` are the bytes at address `pos` onwards. */
    method ParseData(pos: nat, data: seq<Byte>) returns (sts: Status)
      modifies this`parser, this`entries
      ensures var s := Feed(State(OK, old(parser), []), pos, data);
              sts == s.err && parser == s.prs && entries == Record(old(entries), s.found)
    {
      hide Step, FindEntry, Feed, Record;
      ghost var s0 := State(OK, parser, []);
      FeedLast(s0, pos, data[..0]);
      RecordNothing(entries);
      var i := 0;
      while i < |data|
        invariant 0 <= i <= |data|
        invariant var s := Feed(s0, pos, data[..i]);
                  s.err == OK && parser == s.prs && entries == Record(old(entries), s.found)
      {
        ghost var s := Feed(s0, pos, data[..i]);
        ghost var r := Step(State(OK, s.prs, []), pos + i, data[i]);
        ParseStep(s0, pos, data, i);
        RecordAppend(old(entries), s.found, r.found);
        sts := ParseByte(pos + i, data[i]);
        if sts != OK {
          FeedError(s0, pos, data[..i + 1], data[i + 1..]);
          assert data[..i + 1] + data[i + 1..] == data;
          return;
        }
        i := i + 1;
      }
      assert data[..i] == data;
      return OK;
    }

    /** The CRC of the size field and the payload, a word at a time. */
    method StoredCrc(size: nat) returns (w: bv32)
      requires em.flash.Valid() && SizeLegal(size) && size == StoredSize(em.flash.cells)
      modifies em.crc
      ensures em.crc.Valid() && w == CrcBytes(Range(em.flash.cells, CFG_ORIGIN, 4 + size))
    {
      hide CrcBytes, Words, CrcWords, Flash.Traced, Range, Le32, FromLe32;
      ghost var cells := em.flash.cells;
      w := em.crc.Start(Le32(size));
      FromLe32RoundTrip(Range(cells, CFG_ORIGIN, 4));
      var i := 0;
      while i < size
        invariant 0 <= i <= size && i % 4 == 0
        invariant em.crc.Valid() && w == em.crc.dr == CrcBytes(Range(cells, CFG_ORIGIN, 4 + i))
      {
        var word := em.flash.Read(CFG_ORIGIN + 4 + i, 4).value;
        StartThenEnd(Range(cells, CFG_ORIGIN, 4 + i), word);
        RangeAppend(cells, CFG_ORIGIN, 4 + i, 4);
        w := em.crc.End(word);
        i := i + 4;
      }
    }

    method ConfigValidate() returns (sts: Status)
      requires Valid()
      modifies this`configValid, this`parser, this`entries, em.crc
      ensures Valid()
      ensures sts == ValidateStatus(em.flash.cells) && (configValid <==> sts == OK)
      ensures entries == if SizeLegal(StoredSize(em.flash.cells)) && CrcMatches(em.flash.cells)
                         then Record(old(entries), Parsed(em.flash.cells).found)
                         else old(entries)
    {
      hide Feed, CrcBytes, Record, FindEntry, FromLe32, Flash.Traced;
      configValid := false;
      ghost var cells := em.flash.cells;
      var word := em.flash.Read(CFG_ORIGIN, 4).value;
      var size := FromLe32(word);
      if size < 8 || size > 4 + CFG_SIZE + 4 || size % 4 != 0 {
        return WRONG_SIZE_CONFIG;
      }
      var w := StoredCrc(size);
      word := em.flash.Read(CFG_ORIGIN + 4 + size, 4).value;
      if FromLe32(word) != Number(w) {
        return CRC_INVALID;
      }
      parser := IDLE;
      sts := ParseStored(size);
      RecordedWf(old(entries), cells);
      if sts != OK { return; }
      if parser.sts != FINISH {
        return PARSER_NOT_FINISHED;
      }
      configValid := true;
    }

    /** The reading loop: 32 bytes at a time. */
    method ParseStored(size: nat) returns (sts: Status)
      requires em.flash.Valid() && SizeLegal(size) && size == StoredSize(em.flash.cells) && parser == IDLE
      modifies this`parser, this`entries
      ensures var s := Parsed(em.flash.cells);
              sts == s.err && (sts == OK ==> parser == s.prs) && entries == Record(old(entries), s.found)
    {
      hide Feed, Record, FindEntry, Flash.Traced, Range;
      ghost var cells := em.flash.cells;
      RangeNothing(cells, CFG_ORIGIN + 4);
      var endData := 4 + size;
      var offsetRead := 4;
      ghost var done: seq<Byte> := [];
      FeedLast(START, CFG_ORIGIN + 4, done);
      RecordNothing(entries);
      while offsetRead < endData
        invariant 4 <= offsetRead <= endData
        invariant done == Range(cells, CFG_ORIGIN + 4, offsetRead - 4)
        invariant var s := Feed(START, CFG_ORIGIN + 4, done);
                  s.err == OK && parser == s.prs && entries == Record(old(entries), s.found)
        decreases endData - offsetRead
      {
        var n := 32;
        if n > endData - offsetRead {
          n := endData - offsetRead;
        }
        var chunk := em.flash.Read(CFG_ORIGIN + offsetRead, n).value;
        ghost var s := Feed(START, CFG_ORIGIN + 4, done);
        FeedAppend(START, CFG_ORIGIN + 4, done, chunk);
        FeedFound(s, CFG_ORIGIN + offsetRead, chunk);
        RecordAppend(old(entries), s.found, Feed(State(OK, s.prs, []), CFG_ORIGIN + offsetRead, chunk).found);
        sts := ParseData(CFG_ORIGIN + offsetRead, chunk);
        RangeAppend(cells, CFG_ORIGIN + 4, offsetRead - 4, n);
        done := done + chunk;
        offsetRead := offsetRead + n;
        if sts != OK {
          ghost var rest := Range(cells, CFG_ORIGIN + offsetRead, endData - offsetRead);
          FeedError(START, CFG_ORIGIN + 4, done, rest);
          RangeAppend(cells, CFG_ORIGIN + 4, offsetRead - 4, endData - offsetRead);
          return;
        }
      }
      return OK;
    }

    /** Copies the stored values into the variables. */
    method ConfigReadStorage()
      requires Valid()
      modifies this`entries
      ensures Valid() && |entries| == |old(entries)|
      ensures forall i :: 0 <= i < |entries| ==> entries[i] == ReadEntry(em.flash.cells, old(entries)[i])
    {
      hide ValidateStatus, Flash.Traced;
      var i := 0;
      while i < |entries|
        invariant 0 <= i <= |entries| == |old(entries)| && TableWf(entries)
        invariant forall k :: 0 <= k < i ==> entries[k] == ReadEntry(em.flash.cells, old(entries)[k])
        invariant forall k :: i <= k < |entries| ==> entries[k] == old(entries)[k]
      {
        var e := entries[i];
        assert e.Wf();
        if e.addr != 0 && e.data.Some? && e.size != 0 {
          var value := em.flash.Read(e.addr, e.size);
          if value.Some? {
            entries := entries[i := e.(data := value)];
          }
        }
        i := i + 1;
      }
    }
  }

  /** The console's save (write, validate) followed, whatever the variables have become meanwhile, by
      its read (validate, copy): every variable has its saved value again. */
  method SaveAndReload(store: ConfigStore, clobbered: Table) returns (saved: Status)
    requires store.Valid() && Distinguishable(store.entries)
    requires SameRows(store.entries, clobbered) && TableWf(clobbered)
    modifies store, store.em, store.em.flushBuffer, store.em.flash, store.em.crc
    ensures store.Valid() && |store.entries| == |old(store.entries)|
    ensures saved == OK ==> forall i :: 0 <= i < |store.entries| ==> store.entries[i].data == old(store.entries)[i].data
  {
    hide Stores, Merged, Record, FindEntry, ReadEntry, StoredEntries, ValidateStatus, Refusal, Parsed, CrcMatches,
         Flash.Valid;
    ghost var before, t := if store.configValid then StoredEntries(store.em.flash.cells) else [], store.entries;
    saved := store.ConfigWriteStorage();
    if saved != OK { return; }
    store.entries := clobbered;
    ghost var cells := store.em.flash.cells;
    StoresMeans(cells, Merged(before, t));
    RecordedWf(clobbered, cells);
    var valid := store.ConfigValidate();
    assert valid == OK;
    store.ConfigReadStorage();
    forall i | 0 <= i < |t|
      ensures store.entries[i].data == t[i].data
    {
      RoundTrip(cells, before, t, clobbered, i);
    }
  }

  lemma StoresMeans(cells: Cells, items: seq<Item>)
    requires Stores(cells, items)
    ensures ValidateStatus(cells) == OK && StoredEntries(cells) == items
    ensures SizeLegal(StoredSize(cells)) && CrcMatches(cells)
  {}

  lemma StepFound(s: State, pos: nat, b: Byte)
    requires s.err == OK
    ensures var r := Step(State(OK, s.prs, []), pos, b);
            Step(s, pos, b) == State(r.err, r.prs, s.found + r.found)
  {}

  lemma ParseStep(s0: State, pos: nat, data: seq<Byte>, i: nat)
    requires i < |data| && Feed(s0, pos, data[..i]).err == OK
    ensures var s := Feed(s0, pos, data[..i]);
            var r := Step(State(OK, s.prs, []), pos + i, data[i]);
            Feed(s0, pos, data[..i + 1]) == State(r.err, r.prs, s.found + r.found)
  {
    hide Step, Feed;
    FeedLast(s0, pos, data[..i + 1]);
    assert data[..i + 1][..i] == data[..i];
    StepFound(Feed(s0, pos, data[..i]), pos + i, data[i]);
  }

  lemma RecordNothing(t: Table)
    ensures Record(t, []) == t
  {}

  lemma {:induction false} RecordAppend(t: Table, a: seq<Found>, b: seq<Found>)
    ensures Record(t, a + b) == Record(Record(t, a), b)
    decreases |b|
  {
    hide FindEntry;
    if b == [] {
      assert a + b == a;
    } else {
      assert (a + b)[..|a + b| - 1] == a + b[..|b| - 1];
      RecordAppend(t, a, b[..|b| - 1]);
    }
  }

  /** Recorded addresses stay inside the flash. */
  lemma RecordedWf(t: Table, cells: Cells)
    requires TableWf(t) && SizeLegal(StoredSize(cells))
    ensures var r := Record(t, Parsed(cells).found); TableWf(r) && |r| == |t|
  {
    hide Feed, Record;
    FoundInside(CFG_ORIGIN + 4, Payload(cells));
    RecordKeepsWf(t, Parsed(cells).found);
  }

  lemma {:induction false} RecordKeepsWf(t: Table, found: seq<Found>)
    requires TableWf(t)
    requires forall i :: 0 <= i < |found| ==>
               FLASH_START <= found[i].offset && found[i].offset + found[i].size < FLASH_FINISH
    ensures TableWf(Record(t, found)) && |Record(t, found)| == |t|
  {
    hide FindEntry;
    if found != [] {
      var before, f := found[..|found| - 1], found[|found| - 1];
      RecordKeepsWf(t, before);
      FindEntryKeepsWf(Record(t, before), f, 0);
    }
  }

  lemma FindEntryKeepsWf(t: Table, f: Found, i: nat)
    requires i <= |t| && TableWf(t) && FLASH_START <= f.offset && f.offset + f.size < FLASH_FINISH
    ensures TableWf(FindEntry(t, f, i)) && |FindEntry(t, f, i)| == |t|
    decreases |t| - i
  {}

  // ----- The old configuration, as the merging loops walk it -----

  /** `strlen` of the name at `off`, its terminator included, and the size field behind it. */
  method EntryHeader(buf: seq<Byte>, off: nat, ghost item: Item) returns (nameSz: nat, dataSz: U16)
    requires off + |Print(item)| <= |buf| && buf[off..off + |Print(item)|] == Print(item)
    requires item.Wf() && buf[off] != 0
    ensures item.Entry? && nameSz == |item.key| + 1 && dataSz == |item.value|
    ensures |Print(item)| == nameSz + 2 + dataSz && off + nameSz + 2 + dataSz <= |buf|
    ensures buf[off..off + nameSz - 1] == item.key
    ensures buf[off + nameSz + 2..off + nameSz + 2 + dataSz] == item.value
  {
    hide Print, Le16;
    ghost var text := Print(item);
    FirstPrinted(item);
    assert buf[off] == text[0];
    ghost var n := |item.key|;
    TextParts(item.key, item.value);
    Slice(buf, off, text, 0, n);
    assert buf[off + n] == buf[off..off + |text|][n];
    ghost var name := buf[off + 0..off + n];
    var k := 0;
    while buf[off + k] != 0
      invariant 0 <= k <= n
      invariant k < n ==> buf[off + k] == name[k] == item.key[k]
      decreases n - k
    {
      k := k + 1;
    }
    nameSz := k + 1;
    Slice(buf, off, text, n + 1, n + 3);
    Slice(buf, off, text, n + 3, |text|);
    Le16RoundTrip(|item.value|);
    dataSz := FromLe16(buf[off + nameSz..off + nameSz + 2]);
  }

  lemma TextParts(key: seq<Byte>, value: seq<Byte>)
    requires |value| < 0x1_0000
    ensures var text, n := Print(Entry(key, value)), |key|;
            |text| == n + 3 + |value|
            && text[..n] == key && text[n] == 0
            && text[n + 1..n + 3] == Le16(|value|) && text[n + 3..] == value
            && text[n + 1] == |value| % 256 && text[n + 2] == |value| / 256
  {
    hide Le16;
    var text, n, size := Print(Entry(key, value)), |key|, Le16(|value|);
    assert |value| % 0x1_0000 == |value|;
    assert text == key + [0] + Le16(|value| % 0x1_0000) + value;
    assert text == (key + [0]) + size + value;
    Parts(key + [0], size, value);
    assert text[n] == text[..n + 1][n] && text[..n] == text[..n + 1][..n];
    LowByteFirst(|value|);
    assert text[n + 1] == text[n + 1..n + 3][0] && text[n + 2] == text[n + 1..n + 3][1];
  }

  lemma LowByteFirst(x: U16)
    ensures Le16(x) == [x % 256, x / 256]
  {}

  /** The layout of a successful save: the size of what follows up to the CRC, the entries, zeros up to a
      multiple of four, and the CRC of all that. */
  lemma StoredLayout(cells: Cells, items: seq<Item>)
    requires Stores(cells, items)
    ensures var n, text := RoundUp(8 + SizeSum(items)) - 8, PrintAll(items);
            && |text| == SizeSum(items) <= n <= CFG_SIZE + 8
            && FromLe32(Range(cells, CFG_ORIGIN, 4)) == n
            && Range(cells, CFG_ORIGIN + 4, n) == text + Zeros(n - |text|)
            && FromLe32(Range(cells, CFG_ORIGIN + 4 + n, 4)) == CrcValue(Range(cells, CFG_ORIGIN, 4 + n))
  {
    hide PrintAll, SizeSum, CrcValue, FromLe32, Range, StoredEntries, Parsed, StoredBytes, PadCount;
    PrintedSize(items);
    PadRounds(|PrintAll(items)|);
    HeldSize(cells, Padded(items));
    HeldFields(cells, Padded(items));
  }

  lemma HeldSize(cells: Cells, payload: seq<Byte>)
    requires Holds(cells, payload) && ValidateStatus(cells) == OK
    ensures SizeLegal(|payload|)
  {
    hide CrcValue, Parsed, FromLe32, Le32;
    Le32RoundTrip(|payload|);
    StoredLength(payload);
    assert StoredBytes(payload)[..4] == Le32(|payload|);
    assert Range(cells, CFG_ORIGIN, 4) == Range(cells, CFG_ORIGIN, 8 + |payload|)[..4];
  }

  lemma Parts(a: seq<Byte>, b: seq<Byte>, c: seq<Byte>)
    ensures (a + b + c)[..|a|] == a && (a + b + c)[|a|..|a| + |b|] == b && (a + b + c)[|a| + |b|..] == c
  {}

  lemma Slice(buf: seq<Byte>, off: nat, text: seq<Byte>, a: nat, b: nat)
    requires off + |text| <= |buf| && buf[off..off + |text|] == text && a <= b <= |text|
    ensures buf[off + a..off + b] == text[a..b]
  {
    var whole := buf[off..off + |text|];
    forall k | 0 <= k < b - a
      ensures buf[off + a..off + b][k] == whole[a..b][k]
    {
      assert whole[a + k] == buf[off + (a + k)];
    }
  }

  method FindNative(name: seq<Byte>, t: Table) returns (found: bool)
    ensures found == IsNative(t, name)
  {
    var i := 0;
    while i < |t|
      invariant 0 <= i <= |t|
      invariant forall k :: 0 <= k < i ==> t[k].key != name
    {
      if name == t[i].key {
        return true;
      }
      i := i + 1;
    }
    return false;
  }

  method MergedSize(buf: seq<Byte>, t: Table, ghost items: seq<Item>) returns (size: nat)
    requires AllWf(items) && |buf| >= 4 && buf[4..] == PrintAll(items)
    ensures size == |PrintAll(Kept(items, t))|
  {
    hide Print, PrintAll, Kept, IsNative, AllWf;
    size := 0;
    var off := 4;
    ghost var j := 0;
    ItemsFrom(items, t);
    while off < |buf|
      invariant 0 <= j <= |items| && off == 4 + |PrintAll(items[..j])|
      invariant size == |PrintAll(Kept(items[..j], t))|
      decreases |buf| - off
    {
      ItemStep(buf, items, t, j);
      if buf[off] == 0 {
        off := off + 1;
      } else {
        var nameSz, dataSz := EntryHeader(buf, off, items[j]);
        var native := FindNative(buf[off..off + nameSz - 1], t);
        if !native {
          size := size + nameSz + 2 + dataSz;
        }
        off := off + nameSz + 2 + dataSz;
      }
      j := j + 1;
    }
    ItemsEnd(buf, items, j);
  }

  lemma ItemsFrom(items: seq<Item>, t: Table)
    ensures PrintAll(items[..0]) == [] && PrintAll(Kept(items[..0], t)) == []
  {}

  /** The loops stop exactly at the end of the items. */
  lemma ItemsEnd(buf: seq<Byte>, items: seq<Item>, j: nat)
    requires j <= |items| && |buf| >= 4 && buf[4..] == PrintAll(items)
    requires 4 + |PrintAll(items[..j])| >= |buf|
    ensures items[..j] == items
  {
    if j < |items| {
      PrefixPrint(items, j);
    }
  }

  /** Item `j` lies at its offset; what one round of the loops adds. */
  lemma ItemStep(buf: seq<Byte>, items: seq<Item>, t: Table, j: nat)
    requires j <= |items| && AllWf(items) && |buf| >= 4 && buf[4..] == PrintAll(items)
    requires 4 + |PrintAll(items[..j])| < |buf|
    ensures j < |items| && items[j].Wf()
    ensures var off, item := 4 + |PrintAll(items[..j])|, items[j];
            && off + |Print(item)| <= |buf| && buf[off..off + |Print(item)|] == Print(item)
            && 4 + |PrintAll(items[..j + 1])| == off + |Print(item)|
            && (buf[off] == 0 <==> item.Pad?) && (item.Pad? ==> |Print(item)| == 1)
            && PrintAll(Kept(items[..j + 1], t)) == PrintAll(Kept(items[..j], t))
                 + (if item.Pad? || IsNative(t, item.key) then [] else Print(item))
            && (item.Entry? ==> Print(item) == Print(Entry(item.key, Source(Some(item.value), |item.value|))))
            && |PrintAll(Kept(items[..j + 1], t))| <= |PrintAll(Kept(items, t))|
  {
    hide IsNative, PrintAll, Kept, Print;
    assert items[..|items|] == items;
    PrefixPrint(items, j);
    KeptPrefix(items, t, j);
    FirstPrinted(items[j]);
    var off, item := |PrintAll(items[..j])|, items[j];
    assert buf[4..][off..off + |Print(item)|] == Print(item);
    assert buf[4 + off..4 + off + |Print(item)|] == buf[4..][off..off + |Print(item)|];
    assert buf[4 + off] == Print(item)[0];
  }

  lemma FirstPrinted(item: Item)
    requires item.Wf()
    ensures |Print(item)| > 0 && (Print(item)[0] == 0 <==> item.Pad?) && (item.Pad? ==> |Print(item)| == 1)
  {}

  lemma PrefixPrint(items: seq<Item>, j: nat)
    requires j < |items|
    ensures PrintAll(items[..j + 1]) == PrintAll(items[..j]) + Print(items[j])
    ensures PrintAll(items) == PrintAll(items[..j]) + Print(items[j]) + PrintAll(items[j + 1..])
    ensures |Print(items[j])| > 0
  {
    hide PrintAll;
    PrintAllAppend(items[..j + 1], items[j + 1..]);
    assert items[..j + 1] + items[j + 1..] == items;
    LastPrint(items[..j + 1]);
    assert items[..j + 1][..j] == items[..j];
  }

  lemma LastPrint(items: seq<Item>)
    requires items != []
    ensures PrintAll(items) == PrintAll(items[..|items| - 1]) + Print(items[|items| - 1])
  {
    hide Print;
  }

  lemma LastKept(items: seq<Item>, t: Table)
    requires items != []
    ensures var last := items[|items| - 1];
            Kept(items, t) == Kept(items[..|items| - 1], t) + if last.Pad? || IsNative(t, last.key) then [] else [last]
  {
    hide IsNative;
  }

  lemma KeptPrefix(items: seq<Item>, t: Table, j: nat)
    requires j < |items|
    ensures Kept(items[..j + 1], t) == Kept(items[..j], t)
              + (if items[j].Pad? || IsNative(t, items[j].key) then [] else [items[j]])
    ensures PrintAll(Kept(items[..j + 1], t)) == PrintAll(Kept(items[..j], t))
              + (if items[j].Pad? || IsNative(t, items[j].key) then [] else Print(items[j]))
    ensures |PrintAll(Kept(items[..j + 1], t))| <= |PrintAll(Kept(items, t))|
  {
    hide IsNative, Print, PrintAll, Kept;
    assert items[..j + 1][..j] == items[..j];
    LastKept(items[..j + 1], t);
    KeptAppend(items[..j + 1], items[j + 1..], t);
    assert items[..j + 1] + items[j + 1..] == items;
    PrintAllAppend(Kept(items[..j + 1], t), Kept(items[j + 1..], t));
    var before, more := Kept(items[..j], t), Kept(items[..j + 1], t);
    if more != before {
      LastPrint(more);
      assert more[..|more| - 1] == before;
    }
  }

  /** The items a valid configuration consists of, with the flash reads that fetch them. */
  lemma StoredItems(cells: Cells, t: Table) returns (items: seq<Item>)
    requires ValidateStatus(cells) == OK
    ensures AllWf(items) && SizeLegal(StoredSize(cells)) && StoredSize(cells) == |PrintAll(items)|
    ensures Range(cells, CFG_ORIGIN, 4 + StoredSize(cells))[4..] == PrintAll(items)
    ensures Kept(items, t) == Kept(StoredEntries(cells), t)
  {
    hide PrintAll, Entries, StoredEntries, Parsed, Kept;
    items := ValidIsPrinted(cells);
    KeptOfEntries(items, t);
    assert Range(cells, CFG_ORIGIN, 4 + StoredSize(cells))[4..] == Payload(cells);
  }

  lemma MergedText(items: seq<Item>, t: Table)
    requires AllWf(items) && AllWf(Natives(t)) && t != []
    ensures var all := Kept(items, t) + Natives(t);
            && AllWf(all) && all != [] && (forall k :: 0 <= k < |all| ==> all[k].Entry?)
            && |PrintAll(all)| == |PrintAll(Kept(items, t))| + |PrintAll(Natives(t))|
  {
    hide PrintAll, Kept, Print;
    KeptAreForeign(items, t);
    PrintAllAppend(Kept(items, t), Natives(t));
    AllWfAppend(Kept(items, t), Natives(t));
  }

  lemma MergedNothing(t: Table)
    ensures Merged([], t) == Natives(t)
  {}

  /** A configuration that validates, lists `items`, and is laid out as documented. */
  ghost predicate Stores(cells: Cells, items: seq<Item>) {
    && ValidateStatus(cells) == OK && StoredEntries(cells) == items
    && |Padded(items)| < U32_MOD && Holds(cells, Padded(items))
  }

  /** Why a save of `items` is refused before flash is touched. */
  function Refusal(t: Table, items: seq<Item>): Status {
    if CheckTable(t) != OK then CheckTable(t)
    else if 8 + |Padded(items)| > CFG_SIZE then STORAGE_OUT_OF_BOUNDS
    else OK
  }

  /** A save of good rows is refused exactly if it needs more room than the region has; otherwise the first
      bad row decides. */
  lemma RefusalExactly(old_: seq<Item>, t: Table)
    requires TableWf(t)
    ensures GoodRows(t, |t|) ==>
              Refusal(t, Merged(old_, t)) ==
              if RoundUp(8 + SizeSum(Kept(old_, t)) + RowSum(t)) > 65536 then STORAGE_OUT_OF_BOUNDS else OK
    ensures forall k :: 0 <= k < |t| && GoodRows(t, k) && !GoodRow(t[k]) ==>
              Refusal(t, Merged(old_, t)) == RowCode(t[k]) != OK
  {
    hide GoodRows, GoodRow, RowCode, CheckTable, Merged, Kept, Padded, SizeSum, RowSum, RoundUp;
    TableCode(t);
    PaddedRoom(old_, t);
  }

  lemma NothingWritten(ops: seq<Op>)
    ensures InCfg(ops, ops)
  {
    NoOps(CFG_ORIGIN, CFG_SIZE);
    assert ops[|ops|..] == [];
  }

  lemma StoresValid(cells: Cells, items: seq<Item>)
    requires Stores(cells, items)
    ensures ValidateStatus(cells) == OK
  {}

  /** The emitted text, size field first, is the stored form up to its CRC. */
  lemma SavedText(items: seq<Item>, kept: seq<Item>, natives: seq<Item>)
    requires items == kept + natives && 8 + |Padded(items)| <= CFG_SIZE
    ensures var n, p := |Padded(items)|, PadCount(|PrintAll(items)|);
            var sized := Le32(n) + PrintAll(kept) + PrintAll(natives) + Zeros(p);
            && sized + Le32(CrcValue(sized)) == StoredBytes(Padded(items))
            && |PrintAll(kept)| + |PrintAll(natives)| + p == n && n % 4 == 0
  {
    hide PrintAll, CrcValue, Le32;
    PrintAllAppend(kept, natives);
    var n, p := |Padded(items)|, PadCount(|PrintAll(items)|);
    assert Le32(n) + PrintAll(kept) + PrintAll(natives) + Zeros(p) == Le32(n) + Padded(items);
    PaddedSize(items);
  }

  lemma PaddedSize(items: seq<Item>)
    ensures |Padded(items)| == |PrintAll(items)| + PadCount(|PrintAll(items)|)
    ensures PadCount(|PrintAll(items)|) ==
            var n := |PrintAll(items)|; if (8 + n) % 4 != 0 then 4 - (8 + n) % 4 else 0
    ensures |Padded(items)| % 4 == 0
    ensures 8 + |PrintAll(items)| > CFG_SIZE ==> 8 + |Padded(items)| > CFG_SIZE
  {
    hide PrintAll;
    PadAligns(|PrintAll(items)|);
  }

  lemma PadAligns(n: nat)
    ensures (n + PadCount(n)) % 4 == 0
  {}

  lemma NoItems(items: seq<Item>)
    ensures PrintAll([]) == [] && [] + items == items
  {}

  lemma PrintNotTiny(items: seq<Item>)
    requires AllWf(items) && items != [] && items[|items| - 1].Entry?
    ensures |PrintAll(items)| >= 5
  {}

  lemma SavedIsValid(base: Cells, flags: Flags, items: seq<Item>)
    requires AllWf(items) && items != [] && forall k :: 0 <= k < |items| ==> items[k].Entry?
    requires 8 + |Padded(items)| <= CFG_SIZE
    ensures Stores(Written(base, flags, CFG_ORIGIN, StoredBytes(Padded(items))), items)
  {
    hide Print, PrintAll, Padded, Entries, StoredEntries, ValidateStatus, StoredBytes, Written, WrittenAt, AllWf,
         Payload;
    PrintNotTiny(items);
    PaddedSize(items);
    var padded := PaddedPrints(items);
    EntriesOfEntries(items);
    StoredLength(Padded(items));
    var cells := Written(base, flags, CFG_ORIGIN, StoredBytes(Padded(items)));
    WrittenRange(base, flags, CFG_ORIGIN, StoredBytes(Padded(items)));
    assert Holds(cells, Padded(items));
    HeldIsValid(cells, padded);
  }

  lemma StoredLength(payload: seq<Byte>)
    requires |payload| < U32_MOD
    ensures |StoredBytes(payload)| == 8 + |payload|
    ensures StoredBytes(payload) == Le32(|payload|) + payload + Le32(CrcValue(Le32(|payload|) + payload))
  {}

  lemma WrittenRange(base: Cells, flags: Flags, dest: int, src: seq<Byte>)
    requires InFlash(dest, |src|)
    ensures Range(Written(base, flags, dest, src), dest, |src|) == src
  {
    var c := Written(base, flags, dest, src);
    forall i | 0 <= i < |src|
      ensures Range(c, dest, |src|)[i] == src[i]
    {
      assert Range(c, dest, |src|)[i] == At(c, dest + i);
    }
  }

  lemma PrintIs(s: seq<Byte>, key: seq<Byte>, size: U16, data: Option<seq<Byte>>)
    requires data.Some? ==> |data.value| == size
    ensures Source(Some(key + [0]), |key| + 1) == key + [0] && Source(Some(Le16(size)), 2) == Le16(size)
    ensures s + (key + [0]) + Le16(size) + Source(data, size) == s + Print(Entry(key, Source(data, size)))
  {
    hide Le16;
    var value := Source(data, size);
    assert Print(Entry(key, value)) == key + [0] + Le16(size) + value;
  }

  /** The checks both writing paths begin with, and the size of the native entries. */
  method CheckEntries(t: Table) returns (sts: Status, total: nat)
    requires TableWf(t)
    ensures sts == CheckTable(t) && sts in {OK, KEY_LONG, KEY_SHORT, LENGTH_DATA_ZERO}
    ensures sts == OK ==> AllWf(Natives(t)) && total == |PrintAll(Natives(t))|
  {
    hide Print, PrintAll, Natives, CheckTable, AllWf;
    NoRows();
    total := 0;
    var i := 0;
    assert t[..0] == [];
    while i < |t|
      invariant 0 <= i <= |t|
      invariant CheckTable(t[..i]) == OK
      invariant AllWf(Natives(t[..i])) && total == |PrintAll(Natives(t[..i]))|
    {
      var e := t[i];
      NativeStep(t, i);
      CheckStep(t, i);
      AllWfAppend(Natives(t[..i]), [NativeItem(e)]);
      AllWfOne(NativeItem(e));
      if |e.key| >= MAX_KEY_SIZE - 1 {
        CheckStops(t, i + 1);
        return KEY_LONG, 0;
      }
      if |e.key| == 0 {
        CheckStops(t, i + 1);
        return KEY_SHORT, 0;
      }
      if e.size == 0 {
        CheckStops(t, i + 1);
        return LENGTH_DATA_ZERO, 0;
      }
      total := total + (|e.key| + 1) + 2 + e.size;
      i := i + 1;
    }
    assert t[..i] == t;
    return OK, total;
  }

  lemma AllWfOne(item: Item)
    ensures AllWf([item]) <==> item.Wf()
  {
    assert [item][0] == item;
  }

  lemma NoRows()
    ensures CheckTable([]) == OK && AllWf(Natives([])) && PrintAll(Natives([])) == []
  {}

  lemma NativeStep(t: Table, i: nat)
    requires i < |t| && t[i].Wf()
    ensures Natives(t[..i + 1]) == Natives(t[..i]) + [NativeItem(t[i])]
    ensures |Print(NativeItem(t[i]))| == |t[i].key| + 3 + t[i].size
    ensures PrintAll(Natives(t[..i + 1])) == PrintAll(Natives(t[..i])) + Print(NativeItem(t[i]))
  {
    hide PrintAll;
    assert t[..i + 1][..i] == t[..i];
    var items := Natives(t[..i]) + [NativeItem(t[i])];
    assert items[..|items| - 1] == Natives(t[..i]);
    LastPrint(items);
  }

  lemma CheckStep(t: Table, i: nat)
    requires i < |t| && t[i].Wf()
    ensures CheckTable(t[..i + 1]) ==
            if CheckTable(t[..i]) != OK then CheckTable(t[..i])
            else if |t[i].key| >= MAX_KEY_SIZE - 1 then KEY_LONG
            else if |t[i].key| == 0 then KEY_SHORT
            else if t[i].size == 0 then LENGTH_DATA_ZERO
            else OK
    ensures CheckTable(t[..i + 1]) == OK ==> NativeItem(t[i]).Wf()
  {
    assert t[..i + 1][..i] == t[..i];
  }

  lemma NativesPrefix(t: Table, i: nat)
    requires i <= |t|
    ensures |PrintAll(Natives(t[..i]))| <= |PrintAll(Natives(t))|
  {
    hide Print, PrintAll, Natives;
    NativesOfPrefix(t, i);
    PrintAllAppend(Natives(t)[..i], Natives(t)[i..]);
    assert Natives(t)[..i] + Natives(t)[i..] == Natives(t);
  }

  lemma NativesOfPrefix(t: Table, i: nat)
    requires i <= |t|
    ensures Natives(t[..i]) == Natives(t)[..i]
  {
    hide NativeItem;
  }

  lemma {:induction false} CheckStops(t: Table, i: nat)
    requires i <= |t| && CheckTable(t[..i]) != OK
    ensures CheckTable(t) == CheckTable(t[..i])
    decreases |t| - i
  {
    if i == |t| {
      assert t[..i] == t;
    } else {
      assert t[..i + 1][..i] == t[..i];
      CheckStops(t, i + 1);
    }
  }
}
