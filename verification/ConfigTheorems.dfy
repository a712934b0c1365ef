/** Properties of the stored configuration that span writing, validating and reading. */
module ConfigTheorems {
  import opened Bytes
  import Crc
  import opened FlashMemory
  import opened Layout
  import opened ConfigFormat
  import opened ConfigSpec

  // ----- A stored form is valid -----

  /** Storage that holds the stored form of printed items validates, and their entries are stored. */
  lemma HeldIsValid(cells: Cells, items: seq<Item>)
    requires AllWf(items) && SizeLegal(|PrintAll(items)|) && Holds(cells, PrintAll(items))
    ensures ValidateStatus(cells) == OK && StoredEntries(cells) == Entries(items)
    ensures Payload(cells) == PrintAll(items)
  {
    hide Step, Feed, PrintAll, FoundIn, Print, Entries, Crc.CrcValue, Le32, FromLe32;
    HeldFields(cells, PrintAll(items));
    FeedPrint(START, CFG_ORIGIN + 4, items);
    assert PrintAll(items) + [] == PrintAll(items);
    ReadBackFound(items, CFG_ORIGIN + 4, []);
  }

  lemma HeldFields(cells: Cells, payload: seq<Byte>)
    requires SizeLegal(|payload|) && Holds(cells, payload)
    ensures StoredSize(cells) == |payload| && Payload(cells) == payload && CrcMatches(cells)
  {
    hide Crc.CrcValue, Le32, FromLe32;
    var sized := Le32(|payload|) + payload;
    var all := Range(cells, CFG_ORIGIN, 8 + |payload|);
    Le32RoundTrip(|payload|);
    Le32RoundTrip(Crc.CrcValue(sized));
    assert all == sized + Le32(Crc.CrcValue(sized));
    assert sized[..4] == Le32(|payload|) && sized[4..] == payload;
    assert Range(cells, CFG_ORIGIN, 4 + |payload|) == all[..4 + |payload|];
    assert all[..4 + |payload|] == sized;
    assert Range(cells, CFG_ORIGIN, 4) == sized[..4];
    assert Range(cells, CFG_ORIGIN + 4, |payload|) == sized[4..];
    assert Range(cells, CFG_ORIGIN + 4 + |payload|, 4) == all[4 + |payload|..];
    assert all[4 + |payload|..] == Le32(Crc.CrcValue(sized));
  }

  /** `config_validate` answers OK exactly when the size is legal, the CRC word matches and the
      payload is in the grammar. */
  lemma ValidateAcceptance(cells: Cells)
    ensures ValidateStatus(cells) == OK <==>
            SizeLegal(StoredSize(cells)) && CrcMatches(cells) && Grammatical(Payload(cells))
  {
    hide Feed, Grammatical;
    if SizeLegal(StoredSize(cells)) {
      Acceptance(CFG_ORIGIN + 4, Payload(cells));
    }
  }

  /** Every answer of `config_validate`, from the words in flash: the size, the CRC, the text. */
  lemma ValidateExactly(cells: Cells)
    ensures var n := FromLe32(Range(cells, CFG_ORIGIN, 4));
            if n < 8 || n > 65544 || n % 4 != 0 then ValidateStatus(cells) == WRONG_SIZE_CONFIG
            else if FromLe32(Range(cells, CFG_ORIGIN + 4 + n, 4)) != Crc.CrcValue(Range(cells, CFG_ORIGIN, 4 + n))
            then ValidateStatus(cells) == CRC_INVALID
            else
              var text := Range(cells, CFG_ORIGIN + 4, n);
              ValidateStatus(cells) == if HasLongKey(text) then KEY_LONG
                                       else if HasZeroSize(text) then LENGTH_DATA_ZERO
                                       else if !Grammatical(text) then PARSER_NOT_FINISHED
                                       else OK
  {
    hide Feed, Grammatical, HasLongKey, HasZeroSize, Range, FromLe32, Crc.CrcValue;
    if SizeLegal(StoredSize(cells)) {
      Acceptance(CFG_ORIGIN + 4, Payload(cells));
      RefusedText(CFG_ORIGIN + 4, Payload(cells));
    }
  }

  // ----- Damaged configurations -----

  /** One damaged byte of the entries or the padding is always noticed. */
  lemma DamagedText(cells: Cells, bad: Cells, payload: seq<Byte>, a: Addr)
    requires 8 <= |payload| <= 65528 && |payload| % 4 == 0 && Holds(cells, payload)
    requires CFG_ORIGIN + 4 <= a < CFG_ORIGIN + 4 + |payload|
    requires forall b: Addr :: At(bad, b) == At(cells, b) <==> b != a
    ensures ValidateStatus(bad) == CRC_INVALID
  {
    hide Crc.CrcValue, FromLe32, Feed, StoredBytes;
    var n := |payload|;
    HeldFields(cells, payload);
    SameRange(cells, bad, CFG_ORIGIN, 4);
    SameRange(cells, bad, CFG_ORIGIN + 4 + n, 4);
    var good, text := Range(cells, CFG_ORIGIN, 4 + n), Range(bad, CFG_ORIGIN, 4 + n);
    forall j | 0 <= j < 4 + n
      ensures good[j] == text[j] <==> j != a - CFG_ORIGIN
    {
      assert good[j] == At(cells, CFG_ORIGIN + j) && text[j] == At(bad, CFG_ORIGIN + j);
    }
    Crc.OneByteDetected(good, text, a - CFG_ORIGIN);
  }

  lemma SameRange(c: Cells, d: Cells, addr: int, n: nat)
    requires InFlash(addr, n) && forall a: Addr :: addr <= a < addr + n ==> At(c, a) == At(d, a)
    ensures Range(c, addr, n) == Range(d, addr, n)
  {
    forall k | 0 <= k < n
      ensures Range(c, addr, n)[k] == Range(d, addr, n)[k]
    {
      assert At(c, addr + k) == At(d, addr + k);
    }
  }

  /** So is any damage to the CRC word. */
  lemma DamagedCrc(cells: Cells, bad: Cells, payload: seq<Byte>)
    requires 8 <= |payload| <= 65528 && |payload| % 4 == 0 && Holds(cells, payload)
    requires forall b: Addr :: CFG_ORIGIN <= b < CFG_ORIGIN + 4 + |payload| ==> At(bad, b) == At(cells, b)
    requires Range(bad, CFG_ORIGIN + 4 + |payload|, 4) != Range(cells, CFG_ORIGIN + 4 + |payload|, 4)
    ensures ValidateStatus(bad) == CRC_INVALID
  {
    hide Crc.CrcValue, FromLe32, Feed, StoredBytes, Le32;
    var n := |payload|;
    HeldFields(cells, payload);
    SameRange(cells, bad, CFG_ORIGIN, 4);
    SameRange(cells, bad, CFG_ORIGIN, 4 + n);
    FromLe32RoundTrip(Range(bad, CFG_ORIGIN + 4 + n, 4));
    FromLe32RoundTrip(Range(cells, CFG_ORIGIN + 4 + n, 4));
  }

  // ----- Padding -----

  ghost function Pads(n: nat): (items: seq<Item>)
    ensures |items| == n && AllWf(items)
  {
    if n == 0 then [] else Pads(n - 1) + [Pad]
  }

  lemma {:induction false} PadsPrint(n: nat)
    ensures PrintAll(Pads(n)) == Zeros(n) && Entries(Pads(n)) == []
  {
    hide Zeros, AllWf;
    if n > 0 {
      PadsPrint(n - 1);
      var pads := Pads(n);
      assert pads[..n - 1] == Pads(n - 1) && pads[n - 1] == Pad;
      assert PrintAll(pads) == Zeros(n - 1) + [0];
      MoreZeros(n);
    }
  }

  lemma MoreZeros(n: nat)
    requires n > 0
    ensures Zeros(n) == Zeros(n - 1) + [0]
  {
    hide Zeros;
  }

  /** Padding a list of entries changes neither what it stores nor its grammar. */
  lemma PaddedPrints(items: seq<Item>) returns (padded: seq<Item>)
    requires AllWf(items)
    ensures AllWf(padded) && PrintAll(padded) == Padded(items) && Entries(padded) == Entries(items)
  {
    hide Print;
    var n := PadCount(|PrintAll(items)|);
    padded := items + Pads(n);
    PadsPrint(n);
    PrintAllAppend(items, Pads(n));
    EntriesAppend(items, Pads(n));
    AllWfAppend(items, Pads(n));
  }

  lemma {:induction false} EntriesOfEntries(items: seq<Item>)
    requires forall i :: 0 <= i < |items| ==> items[i].Entry?
    ensures Entries(items) == items
  {
    if items != [] {
      EntriesOfEntries(items[..|items| - 1]);
      assert items == items[..|items| - 1] + [items[|items| - 1]];
    }
  }

  /** An entry whose key is not in the table. */
  ghost predicate Foreign(item: Item, t: Table) {
    item.Entry? && !IsNative(t, item.key)
  }

  ghost predicate AllForeign(items: seq<Item>, t: Table) {
    forall i :: 0 <= i < |items| ==> Foreign(items[i], t)
  }

  lemma {:induction false} KeptAreForeign(items: seq<Item>, t: Table)
    ensures AllWf(items) ==> AllWf(Kept(items, t))
    ensures AllForeign(Kept(items, t), t)
  {
    hide IsNative;
    if items != [] {
      var n := |items| - 1;
      var before, kept := Kept(items[..n], t), Kept(items, t);
      KeptAreForeign(items[..n], t);
      assert AllWf(items) ==> AllWf(items[..n]) && items[n].Wf();
      forall i | 0 <= i < |kept|
        ensures Foreign(kept[i], t) && (AllWf(items) ==> kept[i].Wf())
      {
        assert kept[i] == if i < |before| then before[i] else items[n];
        assert i < |before| ==> Foreign(before[i], t);
      }
    }
  }

  lemma {:induction false} KeptOfEntries(items: seq<Item>, t: Table)
    ensures Kept(Entries(items), t) == Kept(items, t)
  {
    hide IsNative;
    if items != [] {
      var before, last := items[..|items| - 1], items[|items| - 1];
      KeptOfEntries(before, t);
      if last.Entry? {
        assert Entries(items) == Entries(before) + [last];
        assert Entries(items)[..|Entries(items)| - 1] == Entries(before);
      } else {
        assert Entries(items) == Entries(before);
      }
    }
  }

  // ----- Merging -----

  /** What storage contains after a successful save: another firmware's entries in their order,
      then the native ones with their current values. */
  function Merged(old_: seq<Item>, t: Table): seq<Item> {
    Kept(old_, t) + Natives(t)
  }

  lemma {:induction false} KeptAppend(a: seq<Item>, b: seq<Item>, t: Table)
    ensures Kept(a + b, t) == Kept(a, t) + Kept(b, t)
    decreases |b|
  {
    hide IsNative;
    if b == [] {
      assert a + b == a;
    } else {
      assert (a + b)[..|a + b| - 1] == a + b[..|b| - 1];
      KeptAppend(a, b[..|b| - 1], t);
    }
  }

  lemma {:induction false} KeptOfKept(items: seq<Item>, t: Table)
    ensures Kept(Kept(items, t), t) == Kept(items, t)
  {
    hide IsNative;
    if items != [] {
      var before, last := items[..|items| - 1], items[|items| - 1];
      KeptOfKept(before, t);
      KeptAppend(Kept(before, t), Kept(items, t)[|Kept(before, t)|..], t);
      if last.Entry? && !IsNative(t, last.key) {
        assert Kept([last], t) == [last] by { assert [last][..0] == []; }
      }
    }
  }

  lemma {:induction false} NativesAreNotKept(t: Table, n: nat)
    requires n <= |t|
    ensures Kept(Natives(t)[..n], t) == []
  {
    if n > 0 {
      NativesAreNotKept(t, n - 1);
      assert Natives(t)[..n][..n - 1] == Natives(t)[..n - 1];
      assert IsNative(t, t[n - 1].key);
    }
  }

  /** `kept` are the foreign ones of `items`, in their order: `at` lists where they come from. */
  ghost predicate FilteredBy(items: seq<Item>, t: Table, kept: seq<Item>, at: seq<nat>) {
    && |at| == |kept| && (forall j, k :: 0 <= j < k < |at| ==> at[j] < at[k])
    && (forall k :: 0 <= k < |at| ==> at[k] < |items| && kept[k] == items[at[k]])
    && forall i :: 0 <= i < |items| ==> (i in at <==> Foreign(items[i], t))
  }

  lemma FilterMore(items: seq<Item>, t: Table, kept: seq<Item>, at: seq<nat>, item: Item)
    requires FilteredBy(items, t, kept, at)
    ensures if Foreign(item, t) then FilteredBy(items + [item], t, kept + [item], at + [|items|])
            else FilteredBy(items + [item], t, kept, at)
  {
    hide Foreign;
    assert |items| !in at;
  }

  /** What is kept is exactly the entries with other keys than the table's, in their order. */
  lemma {:induction false} KeptIsFilter(items: seq<Item>, t: Table) returns (at: seq<nat>)
    ensures FilteredBy(items, t, Kept(items, t), at)
  {
    hide FilteredBy, IsNative;
    if items == [] {
      at := [];
      NothingFiltered(t);
    } else {
      var n := |items| - 1;
      var before := KeptIsFilter(items[..n], t);
      FilterMore(items[..n], t, Kept(items[..n], t), before, items[n]);
      assert items == items[..n] + [items[n]];
      if Foreign(items[n], t) {
        at := before + [n];
        assert Kept(items, t) == Kept(items[..n], t) + [items[n]];
      } else {
        at := before;
        assert Kept(items, t) == Kept(items[..n], t);
      }
    }
  }

  lemma NothingFiltered(t: Table)
    ensures FilteredBy([], t, [], [])
  {}

  // ----- How much room a save needs -----

  /** A key with its terminator, two bytes of size, and the value. */
  function SizeSum(items: seq<Item>): nat {
    if items == [] then 0
    else
      var e := items[|items| - 1];
      SizeSum(items[..|items| - 1]) + if e.Pad? then 1 else |e.key| + 3 + |e.value|
  }

  function RowSum(t: Table): nat {
    if t == [] then 0 else RowSum(t[..|t| - 1]) + |t[|t| - 1].key| + 3 + t[|t| - 1].size
  }

  function RoundUp(n: nat): nat {
    (n + 3) / 4 * 4
  }

  lemma {:induction false} PrintedSize(items: seq<Item>)
    ensures |PrintAll(items)| == SizeSum(items)
  {
    hide Le16;
    if items != [] {
      PrintedSize(items[..|items| - 1]);
    }
  }

  lemma {:induction false} SizeSumAppend(a: seq<Item>, b: seq<Item>)
    ensures SizeSum(a + b) == SizeSum(a) + SizeSum(b)
    decreases |b|
  {
    if b == [] {
      assert a + b == a;
    } else {
      assert (a + b)[..|a + b| - 1] == a + b[..|b| - 1];
      SizeSumAppend(a, b[..|b| - 1]);
    }
  }

  lemma {:induction false} NativeSum(t: Table)
    requires TableWf(t)
    ensures SizeSum(Natives(t)) == RowSum(t)
  {
    if t != [] {
      var n := |t| - 1;
      NativeSum(t[..n]);
      assert Natives(t)[..n] == Natives(t[..n]);
      assert t[n].Wf();
    }
  }

  /** Size field, entries and CRC, up to the next multiple of four. */
  lemma PaddedRoom(old_: seq<Item>, t: Table)
    requires TableWf(t)
    ensures 8 + |Padded(Merged(old_, t))| == RoundUp(8 + SizeSum(Kept(old_, t)) + RowSum(t))
  {
    hide Natives, Kept, PrintAll, SizeSum, RowSum, PadCount;
    PrintedSize(Merged(old_, t));
    SizeSumAppend(Kept(old_, t), Natives(t));
    NativeSum(t);
    PadRounds(|PrintAll(Merged(old_, t))|);
  }

  lemma PadRounds(n: nat)
    ensures 8 + n + PadCount(n) == RoundUp(8 + n)
  {}

  /** A row the writer accepts. */
  predicate GoodRow(e: ConfigEntry) {
    1 <= |e.key| <= 30 && e.size >= 1
  }

  ghost predicate GoodRows(t: Table, n: nat)
    requires n <= |t|
  {
    forall i :: 0 <= i < n ==> GoodRow(t[i])
  }

  function RowCode(e: ConfigEntry): Status {
    if |e.key| > 30 then KEY_LONG else if e.key == [] then KEY_SHORT else LENGTH_DATA_ZERO
  }

  lemma CheckLast(t: Table)
    ensures t == [] ==> CheckTable(t) == OK
    ensures t != [] ==>
              var n := |t| - 1;
              && RowCode(t[n]) != OK
              && CheckTable(t) == if CheckTable(t[..n]) != OK then CheckTable(t[..n])
                                  else if GoodRow(t[n]) then OK else RowCode(t[n])
  {}

  /** The first bad row decides. */
  lemma {:induction false} TableCode(t: Table)
    ensures GoodRows(t, |t|) ==> CheckTable(t) == OK
    ensures forall k :: 0 <= k < |t| && GoodRows(t, k) && !GoodRow(t[k]) ==> CheckTable(t) == RowCode(t[k]) != OK
    ensures !GoodRows(t, |t|) ==> CheckTable(t) != OK
  {
    hide CheckTable, GoodRow, RowCode;
    CheckLast(t);
    if t != [] {
      var n := |t| - 1;
      TableCode(t[..n]);
      assert GoodRows(t[..n], n) == GoodRows(t, n);
      assert GoodRows(t, n) && GoodRow(t[n]) ==> GoodRows(t, |t|);
      forall k | 0 <= k < |t| && GoodRows(t, k) && !GoodRow(t[k])
        ensures CheckTable(t) == RowCode(t[k]) != OK
      {
        if k < n {
          assert GoodRows(t[..n], k) && !GoodRow(t[..n][k]);
        }
      }
    }
  }

  /** Saving twice in a row stores the same entries as saving once. */
  lemma MergeIdempotent(old_: seq<Item>, t: Table)
    ensures Merged(Merged(old_, t), t) == Merged(old_, t)
  {
    KeptAppend(Kept(old_, t), Natives(t), t);
    KeptOfKept(old_, t);
    NativesAreNotKept(t, |t|);
    assert Natives(t)[..|t|] == Natives(t);
  }

  // ----- Round trip -----

  /** The same rows, whatever their variables and addresses currently hold. */
  ghost predicate SameRows(t: Table, u: Table) {
    && |t| == |u|
    && forall i :: 0 <= i < |t| ==>
         u[i].key == t[i].key && u[i].size == t[i].size && u[i].data.Some? == t[i].data.Some?
  }

  /** No two rows agree in both key and size, so `find_entry` can tell them apart. */
  ghost predicate Distinguishable(t: Table) {
    forall i, j :: 0 <= i < j < |t| ==> t[i].key != t[j].key || t[i].size != t[j].size
  }

  lemma SameDistinction(t: Table, u: Table)
    requires SameRows(t, u) && Distinguishable(t)
    ensures Distinguishable(u)
  {}

  ghost predicate Matches(e: ConfigEntry, f: Found) {
    e.key == f.key && e.size == f.size
  }

  lemma FindEntryMisses(t: Table, f: Found, i: nat)
    requires i <= |t| && forall j :: i <= j < |t| ==> !Matches(t[j], f)
    ensures FindEntry(t, f, i) == t
    decreases |t| - i
  {}

  lemma FindEntryHits(t: Table, f: Found, i: nat, m: nat)
    requires i <= m < |t| && Matches(t[m], f)
    requires forall j :: i <= j < m ==> !Matches(t[j], f)
    ensures FindEntry(t, f, i) == t[m := t[m].(addr := f.offset)]
    decreases |t| - i
  {}

  /** Row `i` of `u` with the address of the `i`-th finding after the first `skip`. */
  function Addressed(u: Table, found: seq<Found>, skip: nat, m: nat): (r: Table)
    requires m <= |u| && skip + m <= |found|
    ensures |r| == |u|
    ensures forall i :: 0 <= i < |u| ==> r[i] == if i < m then u[i].(addr := found[skip + i].offset) else u[i]
  {
    if m == 0 then u
    else Addressed(u, found, skip, m - 1)[m - 1 := u[m - 1].(addr := found[skip + m - 1].offset)]
  }

  /** The first `n` findings belong to no row. */
  ghost predicate NoneMatches(u: Table, found: seq<Found>, n: nat)
    requires n <= |found|
  {
    forall j, k :: 0 <= j < n && 0 <= k < |u| ==> !Matches(u[k], found[j])
  }

  lemma {:induction false} RecordForeign(u: Table, found: seq<Found>, n: nat)
    requires n <= |found|
    requires NoneMatches(u, found, n)
    ensures Record(u, found[..n]) == u
  {
    hide FindEntry, Matches;
    if n > 0 {
      RecordForeign(u, found, n - 1);
      assert found[..n][..n - 1] == found[..n - 1];
      FindEntryMisses(u, found[n - 1], 0);
    }
  }

  lemma {:induction false} RecordNatives(u: Table, found: seq<Found>, skip: nat, m: nat)
    requires m <= |u| && |found| == skip + |u| && Distinguishable(u)
    requires NoneMatches(u, found, skip)
    requires forall i :: 0 <= i < |u| ==> Matches(u[i], found[skip + i])
    ensures Record(u, found[..skip + m]) == Addressed(u, found, skip, m)
  {
    hide FindEntry;
    if m == 0 {
      RecordForeign(u, found, skip);
    } else {
      RecordNatives(u, found, skip, m - 1);
      assert found[..skip + m][..skip + m - 1] == found[..skip + m - 1];
      var f, t := found[skip + m - 1], Addressed(u, found, skip, m - 1);
      forall j | 0 <= j < m - 1
        ensures !Matches(t[j], f)
      {
        assert Matches(u[m - 1], f);
      }
      FindEntryHits(t, f, 0, m - 1);
    }
  }

  /** What the parser reports about a stored entry. */
  lemma FoundEntry(cells: Cells, j: nat)
    requires ValidateStatus(cells) == OK && j < |StoredEntries(cells)|
    ensures var f, e := Parsed(cells).found[j], StoredEntries(cells)[j];
            && e == Entry(f.key, e.value) && f.size == |e.value| >= 1
            && CFG_ORIGIN < f.offset && f.offset + f.size < FLASH_FINISH
            && Range(cells, f.offset, f.size) == e.value
  {
    hide Step, Feed, PrintAll, FoundIn, Print, Entries, CrcMatches, Range;
    var items := ValidIsPrinted(cells);
    var f, e := Parsed(cells).found[j], StoredEntries(cells)[j];
    assert Entries(items)[j].Wf();
    assert e == EntryAt(Payload(cells), f, CFG_ORIGIN + 4);
    RangePart(cells, CFG_ORIGIN + 4, StoredSize(cells), f.offset - (CFG_ORIGIN + 4), f.size);
  }

  /** Recording the findings gives every row the address of its own entry. */
  lemma RecordedRows(cells: Cells, old_: seq<Item>, t: Table, u: Table)
    requires ValidateStatus(cells) == OK && StoredEntries(cells) == Merged(old_, t)
    requires TableWf(t) && SameRows(t, u) && Distinguishable(t)
    ensures |Parsed(cells).found| == |Kept(old_, t)| + |u|
    ensures Record(u, Parsed(cells).found) == Addressed(u, Parsed(cells).found, |Kept(old_, t)|, |u|)
  {
    hide ValidateStatus, Parsed, StoredEntries, FindEntry, Record, IsNative, Kept, Natives, Merged, ReadEntry,
         Addressed, Matches, Distinguishable, TableWf;
    StoredAreFound(cells);
    var found, skip := Parsed(cells).found, |Kept(old_, t)|;
    MergedParts(old_, t);
    SameDistinction(t, u);
    forall j, k | 0 <= j < skip && 0 <= k < |u|
      ensures !Matches(u[k], found[j])
    {
      ForeignFound(cells, old_, t, u, j, k);
    }
    forall k | 0 <= k < |u|
      ensures Matches(u[k], found[skip + k])
    {
      NativeFound(cells, old_, t, u, k);
    }
    RecordNatives(u, found, skip, |u|);
    assert found[..skip + |u|] == found;
  }

  /** Once storage holds the native entries of `t`, validating and reading restores every variable
      of a table with the same rows, whatever its variables hold by then. */
  lemma RoundTrip(cells: Cells, old_: seq<Item>, t: Table, u: Table, i: nat)
    requires ValidateStatus(cells) == OK && StoredEntries(cells) == Merged(old_, t)
    requires TableWf(t) && SameRows(t, u) && Distinguishable(t) && i < |t|
    ensures i < |Record(u, Parsed(cells).found)|
    ensures ReadEntry(cells, Record(u, Parsed(cells).found)[i]).data == t[i].data
  {
    hide ValidateStatus, Parsed, StoredEntries, Record, Kept, Merged, ReadEntry, Distinguishable, TableWf,
         Addressed, Matches;
    RecordedRows(cells, old_, t, u);
    NativeFound(cells, old_, t, u, i);
  }

  // ----- What validating and reading does to any table -----

  /** The value of the last entry under this key and of this size. */
  function LastStored(es: seq<Item>, key: seq<Byte>, size: nat): Option<seq<Byte>> {
    if es == [] then None
    else
      var e := es[|es| - 1];
      if e.Entry? && e.key == key && |e.value| == size then Some(e.value)
      else LastStored(es[..|es| - 1], key, size)
  }

  /** The last of the first `n` findings of a row, -1 if there is none. */
  ghost function LastMatch(e: ConfigEntry, found: seq<Found>, n: nat): (j: int)
    requires n <= |found|
    ensures -1 <= j < n
  {
    if n == 0 then -1 else if Matches(e, found[n - 1]) then n - 1 else LastMatch(e, found, n - 1)
  }

  ghost predicate SameKeys(t: Table, u: Table) {
    |t| == |u| && forall i :: 0 <= i < |t| ==> t[i] == u[i].(addr := t[i].addr)
  }

  lemma FindEntryAt(t: Table, u: Table, f: Found, i: nat)
    requires SameKeys(t, u) && Distinguishable(u) && i < |u|
    ensures SameKeys(FindEntry(t, f), u)
    ensures FindEntry(t, f)[i] == if Matches(u[i], f) then t[i].(addr := f.offset) else t[i]
  {
    hide FindEntry;
    if m :| 0 <= m < |t| && Matches(t[m], f) {
      forall j | 0 <= j < m
        ensures !Matches(t[j], f)
      {
        assert u[j].key != u[m].key || u[j].size != u[m].size;
      }
      FindEntryHits(t, f, 0, m);
    } else {
      FindEntryMisses(t, f, 0);
    }
  }

  lemma {:induction false} RecordedAddress(u: Table, found: seq<Found>, n: nat, i: nat)
    requires n <= |found| && Distinguishable(u) && i < |u|
    ensures SameKeys(Record(u, found[..n]), u)
    ensures var j := LastMatch(u[i], found, n);
            Record(u, found[..n])[i] == if j < 0 then u[i] else u[i].(addr := found[j].offset)
  {
    hide FindEntry, Distinguishable, Matches;
    if n > 0 {
      RecordedAddress(u, found, n - 1, i);
      assert found[..n][..n - 1] == found[..n - 1];
      FindEntryAt(Record(u, found[..n - 1]), u, found[n - 1], i);
    }
  }

  lemma {:induction false} LastStoredMatch(cells: Cells, e: ConfigEntry, n: nat)
    requires ValidateStatus(cells) == OK && n <= |StoredEntries(cells)|
    ensures |Parsed(cells).found| == |StoredEntries(cells)|
    ensures var j := LastMatch(e, Parsed(cells).found, n);
            LastStored(StoredEntries(cells)[..n], e.key, e.size) ==
            if j < 0 then None else Some(StoredEntries(cells)[j].value)
  {
    hide ValidateStatus, Parsed, StoredEntries;
    StoredAreFound(cells);
    if n > 0 {
      LastStoredMatch(cells, e, n - 1);
      FoundEntry(cells, n - 1);
      assert StoredEntries(cells)[..n][..n - 1] == StoredEntries(cells)[..n - 1];
    }
  }

  /** After a validation and a read a variable holds the value of the last stored entry under its key and of its
      size; a variable without one keeps what it had, and so does a row without a variable. */
  lemma ReadExactly(cells: Cells, u: Table, i: nat)
    requires ValidateStatus(cells) == OK && Distinguishable(u) && i < |u| && u[i].addr == 0
    ensures i < |Record(u, Parsed(cells).found)|
    ensures var r := ReadEntry(cells, Record(u, Parsed(cells).found)[i]);
            && r.key == u[i].key && r.size == u[i].size
            && r.data == if u[i].data == None || LastStored(StoredEntries(cells), u[i].key, u[i].size) == None
                         then u[i].data
                         else LastStored(StoredEntries(cells), u[i].key, u[i].size)
  {
    hide ValidateStatus, Parsed, StoredEntries, Record, LastStored, Distinguishable;
    StoredAreFound(cells);
    var found, es := Parsed(cells).found, StoredEntries(cells);
    LastStoredMatch(cells, u[i], |es|);
    RecordedAddress(u, found, |found|, i);
    assert found[..|found|] == found && es[..|es|] == es;
    var j := LastMatch(u[i], found, |found|);
    if j >= 0 {
      LastMatches(u[i], found, |found|);
      FoundEntry(cells, j);
    }
  }

  lemma {:induction false} LastMatches(e: ConfigEntry, found: seq<Found>, n: nat)
    requires n <= |found| && LastMatch(e, found, n) >= 0
    ensures Matches(e, found[LastMatch(e, found, n)])
  {
    if !Matches(e, found[n - 1]) {
      LastMatches(e, found, n - 1);
    }
  }

  lemma MergedParts(old_: seq<Item>, t: Table)
    ensures |Merged(old_, t)| == |Kept(old_, t)| + |t|
    ensures forall j :: 0 <= j < |Kept(old_, t)| ==> Foreign(Merged(old_, t)[j], t)
    ensures forall k :: 0 <= k < |t| ==> Merged(old_, t)[|Kept(old_, t)| + k] == NativeItem(t[k])
  {
    hide Foreign, NativeItem, Kept;
    forall j | 0 <= j < |Kept(old_, t)|
      ensures Foreign(Merged(old_, t)[j], t)
    {
      KeptIsForeign(old_, t, j);
    }
  }

  lemma KeptIsForeign(old_: seq<Item>, t: Table, j: nat)
    requires j < |Kept(old_, t)|
    ensures Foreign(Kept(old_, t)[j], t)
  {
    KeptAreForeign(old_, t);
  }

  lemma ForeignFound(cells: Cells, old_: seq<Item>, t: Table, u: Table, j: nat, k: nat)
    requires ValidateStatus(cells) == OK && StoredEntries(cells) == Merged(old_, t)
    requires SameRows(t, u) && j < |Kept(old_, t)| && k < |u|
    ensures j < |Parsed(cells).found| && !Matches(u[k], Parsed(cells).found[j])
  {
    hide ValidateStatus, Parsed, StoredEntries, IsNative, Kept, Merged;
    StoredAreFound(cells);
    MergedParts(old_, t);
    FoundEntry(cells, j);
    KeyIsNative(t, k);
  }

  lemma NativeFound(cells: Cells, old_: seq<Item>, t: Table, u: Table, k: nat)
    requires ValidateStatus(cells) == OK && StoredEntries(cells) == Merged(old_, t)
    requires TableWf(t) && SameRows(t, u) && k < |t|
    ensures |Parsed(cells).found| == |Kept(old_, t)| + |t|
    ensures var f := Parsed(cells).found[|Kept(old_, t)| + k];
            && Matches(u[k], f)
            && ReadEntry(cells, u[k].(addr := f.offset)).data == t[k].data
  {
    hide ValidateStatus, Parsed, StoredEntries, Foreign, Kept, Merged, Range, TableWf;
    StoredAreFound(cells);
    MergedParts(old_, t);
    FoundEntry(cells, |Kept(old_, t)| + k);
    RowIsWf(t, k);
  }

  lemma RowIsWf(t: Table, k: nat)
    requires TableWf(t) && k < |t|
    ensures t[k].Wf()
  {}

  lemma KeyIsNative(t: Table, k: nat)
    requires k < |t|
    ensures IsNative(t, t[k].key)
  {}

  lemma StoredAreFound(cells: Cells)
    requires ValidateStatus(cells) == OK
    ensures SizeLegal(StoredSize(cells)) && |Parsed(cells).found| == |StoredEntries(cells)|
  {}
}
