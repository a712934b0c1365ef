/** What the configuration store keeps in flash and what reading it back means
    (common/config_system/config_system.c). */
module ConfigSpec {
  import opened Bytes
  import Crc
  import opened FlashMemory
  import opened Layout
  import opened ConfigFormat

  // ----- The configuration table -----

  /** One row of `g_device_config`. `data` is the variable the row refers to, None for a null
      pointer; `addr` is where the stored value was found, 0 if it was not. */
  datatype ConfigEntry = ConfigEntry(key: seq<Byte>, size: U16, addr: nat, data: Option<seq<Byte>>) {
    ghost predicate Wf() {
      && NoNul(key) && (data.Some? ==> |data.value| == size)
      && (addr != 0 ==> FLASH_START <= addr && addr + size < FLASH_FINISH)
    }
  }

  type Table = seq<ConfigEntry>

  ghost predicate TableWf(t: Table) {
    forall i :: 0 <= i < |t| ==> t[i].Wf()
  }

  function DataBytes(e: ConfigEntry): seq<Byte> {
    if e.data.Some? then e.data.value else Zeros(e.size)
  }

  function NativeItem(e: ConfigEntry): Item {
    Entry(e.key, DataBytes(e))
  }

  function Natives(t: Table): (items: seq<Item>)
    ensures |items| == |t|
    ensures forall i :: 0 <= i < |t| ==> items[i] == NativeItem(t[i])
  {
    if t == [] then [] else Natives(t[..|t| - 1]) + [NativeItem(t[|t| - 1])]
  }

  function IsNative(t: Table, key: seq<Byte>): bool {
    exists i :: 0 <= i < |t| && t[i].key == key
  }

  /** The entries another firmware owns. */
  function Kept(items: seq<Item>, t: Table): seq<Item> {
    if items == [] then []
    else
      var last := items[|items| - 1];
      Kept(items[..|items| - 1], t) + if last.Pad? || IsNative(t, last.key) then [] else [last]
  }

  /** The first defect the writer finds in the table. */
  function CheckTable(t: Table): Status {
    if t == [] then OK
    else
      var e := t[|t| - 1];
      var before := CheckTable(t[..|t| - 1]);
      if before != OK then before
      else if |e.key| >= MAX_KEY_SIZE - 1 then KEY_LONG
      else if |e.key| == 0 then KEY_SHORT
      else if e.size == 0 then LENGTH_DATA_ZERO
      else OK
  }

  function PadCount(n: nat): nat {
    if (8 + n) % 4 != 0 then 4 - (8 + n) % 4 else 0
  }

  function Padded(items: seq<Item>): seq<Byte> {
    PrintAll(items) + Zeros(PadCount(|PrintAll(items)|))
  }

  // ----- The stored form -----

  function StoredBytes(payload: seq<Byte>): seq<Byte>
    requires |payload| < U32_MOD
  {
    var sized := Le32(|payload|) + payload;
    sized + Le32(Crc.CrcValue(sized))
  }

  /** The configuration region begins with the stored form of `payload`. */
  ghost predicate Holds(cells: Cells, payload: seq<Byte>) {
    && |payload| <= 4 + CFG_SIZE + 4
    && Range(cells, CFG_ORIGIN, 8 + |payload|) == StoredBytes(payload)
  }

  function StoredSize(cells: Cells): U32 {
    FromLe32(Range(cells, CFG_ORIGIN, 4))
  }

  predicate SizeLegal(n: nat) {
    8 <= n <= 4 + CFG_SIZE + 4 && n % 4 == 0
  }

  function Payload(cells: Cells): seq<Byte>
    requires SizeLegal(StoredSize(cells))
  {
    Range(cells, CFG_ORIGIN + 4, StoredSize(cells))
  }

  predicate CrcMatches(cells: Cells)
    requires SizeLegal(StoredSize(cells))
  {
    var n := StoredSize(cells);
    FromLe32(Range(cells, CFG_ORIGIN + 4 + n, 4)) == Crc.CrcValue(Range(cells, CFG_ORIGIN, 4 + n))
  }

  function Parsed(cells: Cells): State
    requires SizeLegal(StoredSize(cells))
  {
    Feed(START, CFG_ORIGIN + 4, Payload(cells))
  }

  /** What `config_validate` answers for a flash content. */
  function ValidateStatus(cells: Cells): Status {
    if !SizeLegal(StoredSize(cells)) then WRONG_SIZE_CONFIG
    else if !CrcMatches(cells) then CRC_INVALID
    else if Parsed(cells).err != OK then Parsed(cells).err
    else if Parsed(cells).prs.sts != FINISH then PARSER_NOT_FINISHED
    else OK
  }

  // ----- Addresses -----

  /** `find_entry`: the first row with this key and size learns the address. */
  function FindEntry(t: Table, f: Found, i: nat := 0): Table
    requires i <= |t|
    decreases |t| - i
  {
    if i == |t| then t
    else if t[i].key == f.key && t[i].size == f.size then t[i := t[i].(addr := f.offset)]
    else FindEntry(t, f, i + 1)
  }

  function Record(t: Table, found: seq<Found>): Table {
    if found == [] then t
    else FindEntry(Record(t, found[..|found| - 1]), found[|found| - 1])
  }

  function ReadEntry(cells: Cells, e: ConfigEntry): ConfigEntry {
    if e.addr != 0 && e.data.Some? && e.size != 0 && FLASH_START <= e.addr && e.addr + e.size < FLASH_FINISH
    then e.(data := Some(Range(cells, e.addr, e.size)))
    else e
  }

  // ----- Reading back -----

  /** The entry that a parse of `text`, which starts at address `pos`, reported as `f`. */
  function EntryAt(text: seq<Byte>, f: Found, pos: nat): Item
    requires Inside(text, f, pos)
  {
    Entry(f.key, text[f.offset - pos..f.offset - pos + f.size])
  }

  predicate Inside(text: seq<Byte>, f: Found, pos: nat) {
    pos <= f.offset && f.offset + f.size <= pos + |text|
  }

  /** `es` are the entries reported by `found`. */
  ghost predicate ReadsBack(text: seq<Byte>, found: seq<Found>, pos: nat, es: seq<Item>) {
    && |es| == |found|
    && forall i :: 0 <= i < |found| ==> Inside(text, found[i], pos) && es[i] == EntryAt(text, found[i], pos)
  }

  lemma ValueSlice(text: seq<Byte>, key: seq<Byte>, value: seq<Byte>, rest: seq<Byte>)
    requires |value| < 0x1_0000
    ensures |text| + |key| + 3 + |value| <= |text + (Print(Entry(key, value)) + rest)|
    ensures (text + (Print(Entry(key, value)) + rest))[|text| + |key| + 3..|text| + |key| + 3 + |value|] == value
  {
    var header := key + [0] + Le16(|value|);
    assert text + (Print(Entry(key, value)) + rest) == (text + header) + value + rest;
  }

  lemma {:induction false} ReadBackFound(items: seq<Item>, pos: nat, rest: seq<Byte>)
    requires AllWf(items)
    ensures ReadsBack(PrintAll(items) + rest, FoundIn(items, pos), pos, Entries(items))
  {
    hide Print, FoundItem;
    if items != [] {
      var before, last := items[..|items| - 1], items[|items| - 1];
      var text, more := PrintAll(before), Print(last) + rest;
      ReadBackFound(before, pos, more);
      assert PrintAll(items) + rest == text + more;
      FoundItemIs(last, pos + |text|);
      if last.Entry? {
        ValueSlice(text, last.key, last.value, rest);
      }
    }
  }

  lemma FoundItemIs(item: Item, pos: nat)
    ensures FoundItem(item, pos) == if item.Pad? then [] else [Found(item.key, pos + |item.key| + 3, |item.value|)]
  {}

  /** The entries of a valid configuration. */
  ghost function StoredEntries(cells: Cells): (es: seq<Item>)
    requires ValidateStatus(cells) == OK
    ensures ReadsBack(Payload(cells), Parsed(cells).found, CFG_ORIGIN + 4, es)
  {
    ParsedInside(cells);
    var found := Parsed(cells).found;
    seq(|found|, i requires 0 <= i < |found| => EntryAt(Payload(cells), found[i], CFG_ORIGIN + 4))
  }

  /** A valid configuration is printed items, and its entries are theirs. */
  lemma ValidIsPrinted(cells: Cells) returns (items: seq<Item>)
    requires ValidateStatus(cells) == OK
    ensures AllWf(items) && Payload(cells) == PrintAll(items)
    ensures Parsed(cells).found == FoundIn(items, CFG_ORIGIN + 4)
    ensures StoredEntries(cells) == Entries(items)
  {
    hide Step, Feed, PrintAll, FoundIn, Print, Entries;
    var tail;
    items, tail := Explain(CFG_ORIGIN + 4, Payload(cells));
    assert PrintAll(items) + tail == PrintAll(items);
    ReadBackFound(items, CFG_ORIGIN + 4, tail);
  }

  lemma ParsedInside(cells: Cells)
    requires ValidateStatus(cells) == OK
    ensures forall i :: 0 <= i < |Parsed(cells).found| ==>
              Inside(Payload(cells), Parsed(cells).found[i], CFG_ORIGIN + 4)
  {
    hide Step, Feed, PrintAll, FoundIn, Print, Entries;
    var items, tail := Explain(CFG_ORIGIN + 4, Payload(cells));
    ReadBackFound(items, CFG_ORIGIN + 4, tail);
  }
}
