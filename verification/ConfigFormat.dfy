/** The stored configuration as text to be printed and parsed (common/config_system):
    entries `key\0 size(u16) value` with zero bytes allowed between and after them. */
module ConfigFormat {
  import opened Bytes

  const MAX_KEY_SIZE := 32

  datatype Status =
    | OK
    | STORAGE_WRITE_ERROR
    | STORAGE_OUT_OF_BOUNDS
    | WRONG_SIZE_CONFIG
    | CRC_INVALID
    | KEY_LONG
    | KEY_SHORT
    | LENGTH_DATA_ZERO
    | PARSER_NOT_FINISHED
    | NO_DATA

  // ----- Grammar -----

  datatype Item = Pad | Entry(key: seq<Byte>, value: seq<Byte>) {
    ghost predicate Wf() {
      Entry? ==> 1 <= |key| < MAX_KEY_SIZE && NoNul(key) && 1 <= |value| < 0x1_0000
    }
  }

  ghost predicate AllWf(items: seq<Item>) {
    forall i :: 0 <= i < |items| ==> items[i].Wf()
  }

  function Print(item: Item): seq<Byte> {
    match item
    case Pad => [0]
    case Entry(key, value) => key + [0] + Le16(|value| % 0x1_0000) + value
  }

  function PrintAll(items: seq<Item>): seq<Byte> {
    if items == [] then [] else PrintAll(items[..|items| - 1]) + Print(items[|items| - 1])
  }

  /** The entries of `items`, padding dropped. */
  ghost function Entries(items: seq<Item>): (es: seq<Item>)
    ensures AllWf(items) ==> AllWf(es)
    ensures forall i :: 0 <= i < |es| ==> es[i].Entry?
  {
    if items == [] then []
    else
      var last := items[|items| - 1];
      Entries(items[..|items| - 1]) + if last.Pad? then [] else [last]
  }

  lemma {:induction false} PrintAllAppend(a: seq<Item>, b: seq<Item>)
    ensures PrintAll(a + b) == PrintAll(a) + PrintAll(b)
    decreases |b|
  {
    hide Print;
    if b == [] {
      assert a + b == a;
    } else {
      assert (a + b)[..|a + b| - 1] == a + b[..|b| - 1];
      PrintAllAppend(a, b[..|b| - 1]);
    }
  }

  lemma {:induction false} EntriesAppend(a: seq<Item>, b: seq<Item>)
    ensures Entries(a + b) == Entries(a) + Entries(b)
    decreases |b|
  {
    if b == [] {
      assert a + b == a;
    } else {
      assert (a + b)[..|a + b| - 1] == a + b[..|b| - 1];
      EntriesAppend(a, b[..|b| - 1]);
    }
  }

  // ----- The parser, one byte at a time -----

  datatype Sts = FINISH | KEY | LENGTH | VALUE

  /** `name` is the used part of the name buffer, terminator included once read. */
  datatype Parser = Parser(name: seq<Byte>, lengthData: nat, lengthSize: nat, offset: nat, sts: Sts)

  const IDLE := Parser([], 0, 0, 0, FINISH)

  /** A completed entry: its key, the absolute address of its value and the value's size. */
  datatype Found = Found(key: seq<Byte>, offset: nat, size: nat)

  datatype State = State(err: Status, prs: Parser, found: seq<Found>)

  function KeyByte(s: State, b: Byte): State {
    var p := s.prs.(sts := KEY, name := s.prs.name + [b]);
    if |p.name| >= MAX_KEY_SIZE && b != 0 then s.(err := KEY_LONG, prs := p)
    else if b == 0 && |p.name| <= 1 then s.(err := KEY_SHORT, prs := p)
    else if b == 0 then s.(prs := p.(sts := LENGTH))
    else s.(prs := p)
  }

  function LengthByte(s: State, pos: nat, b: Byte): State {
    var p := s.prs.(lengthData := s.prs.lengthData + if s.prs.lengthSize == 0 then b else 0x100 * b,
                    lengthSize := s.prs.lengthSize + 1);
    if p.lengthSize < 2 then s.(prs := p)
    else if p.lengthData == 0 then s.(err := LENGTH_DATA_ZERO, prs := p)
    else s.(prs := p.(sts := VALUE, offset := pos + 1))
  }

  function ValueByte(s: State, pos: nat): State {
    var p := s.prs;
    if p.offset + p.lengthData == pos + 1 then
      s.(prs := IDLE, found := s.found + [Found(KeyIn(p.name), p.offset, p.lengthData)])
    else s
  }

  /** The string in the name buffer, without its terminator. */
  function KeyIn(name: seq<Byte>): seq<Byte> {
    if name == [] then [] else name[..|name| - 1]
  }

  /** What the byte `b` at address `pos` does. After an error nothing more is read. */
  function Step(s: State, pos: nat, b: Byte): State {
    if s.err != OK then s
    else match s.prs.sts
      case FINISH => if b == 0 then s else KeyByte(s, b)
      case KEY => KeyByte(s, b)
      case LENGTH => LengthByte(s, pos, b)
      case VALUE => ValueByte(s, pos)
  }

  function Feed(s: State, pos: nat, data: seq<Byte>): State {
    if data == [] then s
    else Step(Feed(s, pos, data[..|data| - 1]), pos + |data| - 1, data[|data| - 1])
  }

  const START := State(OK, IDLE, [])

  // ----- Streaming -----

  lemma {:induction false} FeedAppend(s: State, pos: nat, a: seq<Byte>, b: seq<Byte>)
    ensures Feed(s, pos, a + b) == Feed(Feed(s, pos, a), pos + |a|, b)
    decreases |b|
  {
    hide Step;
    if b == [] {
      assert a + b == a;
    } else {
      assert (a + b)[..|a + b| - 1] == a + b[..|b| - 1];
      FeedAppend(s, pos, a, b[..|b| - 1]);
    }
  }

  function Concat(chunks: seq<seq<Byte>>): seq<Byte> {
    if chunks == [] then [] else Concat(chunks[..|chunks| - 1]) + chunks[|chunks| - 1]
  }

  function FeedChunks(s: State, pos: nat, chunks: seq<seq<Byte>>): State {
    if chunks == [] then s
    else
      var before := chunks[..|chunks| - 1];
      Feed(FeedChunks(s, pos, before), pos + |Concat(before)|, chunks[|chunks| - 1])
  }

  /** However a byte stream is split into chunks, the parser ends in the same state with the same findings. */
  lemma {:induction false} Streaming(s: State, pos: nat, chunks: seq<seq<Byte>>)
    ensures FeedChunks(s, pos, chunks) == Feed(s, pos, Concat(chunks))
  {
    hide Step;
    if chunks != [] {
      var before := chunks[..|chunks| - 1];
      Streaming(s, pos, before);
      FeedAppend(s, pos, Concat(before), chunks[|chunks| - 1]);
    }
  }

  /** Findings only accumulate: those of a run do not depend on what was found before it. */
  lemma {:induction false} FeedFound(s: State, pos: nat, data: seq<Byte>)
    ensures var r := Feed(State(s.err, s.prs, []), pos, data);
            Feed(s, pos, data) == State(r.err, r.prs, s.found + r.found)
  {
    if data != [] {
      FeedFound(s, pos, data[..|data| - 1]);
    }
  }

  lemma FeedError(s: State, pos: nat, a: seq<Byte>, b: seq<Byte>)
    requires Feed(s, pos, a).err != OK
    ensures Feed(s, pos, a + b) == Feed(s, pos, a)
  {
    FeedAppend(s, pos, a, b);
    Stuck(Feed(s, pos, a), pos + |a|, b);
  }

  lemma {:induction false} Stuck(s: State, pos: nat, b: seq<Byte>)
    requires s.err != OK
    ensures Feed(s, pos, b) == s
  {
    if b != [] {
      Stuck(s, pos, b[..|b| - 1]);
    }
  }

  /** Everything found lies within what was fed. */
  lemma {:induction false} FoundInside(pos: nat, data: seq<Byte>)
    ensures var s := Feed(START, pos, data);
            && (s.prs.sts == VALUE ==> pos <= s.prs.offset <= pos + |data|)
            && forall i :: 0 <= i < |s.found| ==>
                 pos <= s.found[i].offset && s.found[i].offset + s.found[i].size <= pos + |data|
  {
    if data != [] {
      FoundInside(pos, data[..|data| - 1]);
    }
  }

  // ----- Printed text parses -----

  /** What the parser should report for `items` printed from address `pos` on. */
  ghost function FoundIn(items: seq<Item>, pos: nat): seq<Found> {
    if items == [] then []
    else
      var before, last := items[..|items| - 1], items[|items| - 1];
      FoundIn(before, pos) + FoundItem(last, pos + |PrintAll(before)|)
  }

  ghost function FoundItem(item: Item, pos: nat): seq<Found> {
    match item
    case Pad => []
    case Entry(key, value) => [Found(key, pos + |key| + 3, |value|)]
  }

  lemma {:induction false} FeedKey(s: State, pos: nat, key: seq<Byte>)
    requires s.err == OK && s.prs == IDLE
    requires 1 <= |key| < MAX_KEY_SIZE && NoNul(key)
    ensures Feed(s, pos, key) == s.(prs := Parser(key, 0, 0, 0, KEY))
  {
    var before := key[..|key| - 1];
    assert before + [key[|key| - 1]] == key;
    if |key| > 1 {
      FeedKey(s, pos, before);
    } else {
      assert Feed(s, pos, before) == s;
    }
  }

  lemma {:induction false} FeedValue(s: State, pos: nat, value: seq<Byte>)
    requires s.err == OK && s.prs.sts == VALUE
    requires s.prs.offset == pos && 1 <= |value| <= s.prs.lengthData
    ensures Feed(s, pos, value) ==
            if |value| < s.prs.lengthData then s
            else State(OK, IDLE, s.found + [Found(KeyIn(s.prs.name), pos, |value|)])
  {
    if |value| > 1 {
      FeedValue(s, pos, value[..|value| - 1]);
    } else {
      assert Feed(s, pos, value[..0]) == s;
    }
  }

  lemma FeedHeader(s: State, pos: nat, key: seq<Byte>, n: U16)
    requires s.err == OK && s.prs == IDLE && n > 0
    requires 1 <= |key| < MAX_KEY_SIZE && NoNul(key)
    ensures Feed(s, pos, key + [0] + Le16(n)) == s.(prs := Parser(key + [0], n, 2, pos + |key| + 3, VALUE))
  {
    FeedKey(s, pos, key);
    var k, a, b := key + [0], n % 0x100, n / 0x100;
    assert k[..|k| - 1] == key;
    assert Feed(s, pos, k) == s.(prs := Parser(k, 0, 0, 0, LENGTH));
    var ka := k + [a];
    assert ka[..|ka| - 1] == k;
    assert Feed(s, pos, ka) == s.(prs := Parser(k, a, 1, 0, LENGTH));
    var kab := ka + [b];
    assert kab[..|kab| - 1] == ka;
    assert k + Le16(n) == kab;
  }

  lemma FeedEntry(s: State, pos: nat, key: seq<Byte>, value: seq<Byte>)
    requires s.err == OK && s.prs == IDLE && Entry(key, value).Wf()
    ensures Feed(s, pos, Print(Entry(key, value)))
         == State(OK, IDLE, s.found + [Found(key, pos + |key| + 3, |value|)])
  {
    hide Feed, Step, Le16;
    var header := key + [0] + Le16(|value|);
    FeedHeader(s, pos, key, |value|);
    FeedAppend(s, pos, header, value);
    FeedValue(Feed(s, pos, header), pos + |header|, value);
    assert (key + [0])[..|key|] == key;
  }

  lemma FeedItem(s: State, pos: nat, item: Item)
    requires s.err == OK && s.prs == IDLE && item.Wf()
    ensures Feed(s, pos, Print(item)) == State(OK, IDLE, s.found + FoundItem(item, pos))
  {
    match item
    case Pad =>
      assert Feed(s, pos, [0][..0]) == s;
    case Entry(key, value) =>
      hide Feed, Step, Print;
      FeedEntry(s, pos, key, value);
  }

  /** Parsing undoes printing. */
  lemma {:induction false} FeedPrint(s: State, pos: nat, items: seq<Item>)
    requires s.err == OK && s.prs == IDLE && AllWf(items)
    ensures Feed(s, pos, PrintAll(items)) == State(OK, IDLE, s.found + FoundIn(items, pos))
  {
    hide Step, Feed, Print, FoundItem;
    FeedLast(s, pos, []);
    if items != [] {
      var before, last := items[..|items| - 1], items[|items| - 1];
      FeedPrint(s, pos, before);
      FeedAppend(s, pos, PrintAll(before), Print(last));
      FeedItem(Feed(s, pos, PrintAll(before)), pos + |PrintAll(before)|, last);
    }
  }

  // ----- Whatever parses was printed -----

  /** `tail`, which starts at address `at`, is the beginning of an entry that brings an idle parser to `p`. */
  ghost predicate Pending(p: Parser, tail: seq<Byte>, at: nat) {
    match p.sts
    case FINISH => p == IDLE && tail == []
    case KEY => p == Parser(tail, 0, 0, 0, KEY) && 1 <= |tail| < MAX_KEY_SIZE && NoNul(tail)
    case LENGTH =>
      && PendingKey(p.name) && p.offset == 0
      && ((p.lengthSize == 0 && p.lengthData == 0 && tail == p.name)
          || (p.lengthSize == 1 && p.lengthData < 0x100 && tail == p.name + [p.lengthData]))
    case VALUE =>
      && PendingKey(p.name) && p.lengthSize == 2 && 0 < p.lengthData < 0x1_0000
      && p.offset == at + |p.name| + 2
      && |p.name| + 2 <= |tail| < |p.name| + 2 + p.lengthData
      && tail[..|p.name| + 2] == p.name + Le16(p.lengthData)
  }

  ghost predicate PendingKey(name: seq<Byte>) {
    && 2 <= |name| <= MAX_KEY_SIZE && name[|name| - 1] == 0 && NoNul(name[..|name| - 1])
  }

  lemma StepPendingKey(s: State, tail: seq<Byte>, at: nat, b: Byte)
    requires s.err == OK && s.prs.sts == KEY && Pending(s.prs, tail, at)
    requires Step(s, at + |tail|, b).err == OK
    ensures Pending(Step(s, at + |tail|, b).prs, tail + [b], at)
    ensures Step(s, at + |tail|, b).found == s.found
  {
    var r := Step(s, at + |tail|, b);
    assert r.prs.name == tail + [b];
    assert r.prs.name[..|r.prs.name| - 1] == tail;
  }

  lemma StepPendingLength(s: State, tail: seq<Byte>, at: nat, b: Byte)
    requires s.err == OK && s.prs.sts == LENGTH && Pending(s.prs, tail, at)
    requires Step(s, at + |tail|, b).err == OK
    ensures Pending(Step(s, at + |tail|, b).prs, tail + [b], at)
    ensures Step(s, at + |tail|, b).found == s.found
  {
    var r := Step(s, at + |tail|, b);
    var name := s.prs.name;
    if r.prs.sts == VALUE {
      assert tail + [b] == name + [s.prs.lengthData, b];
      assert Le16(r.prs.lengthData) == [s.prs.lengthData, b];
      assert (tail + [b])[..|name| + 2] == name + Le16(r.prs.lengthData);
    }
  }

  lemma StepPendingValue(s: State, tail: seq<Byte>, at: nat, b: Byte) returns (item: Item)
    requires s.err == OK && s.prs.sts == VALUE && Pending(s.prs, tail, at)
    ensures var r, n := Step(s, at + |tail|, b), |s.prs.name|;
            if |tail| + 1 < n + 2 + s.prs.lengthData then
              r == s && Pending(r.prs, tail + [b], at)
            else
              && item.Entry? && item.Wf() && Print(item) == tail + [b]
              && r == State(OK, IDLE, s.found + FoundItem(item, at))
  {
    hide Le16, KeyByte, LengthByte;
    var n, text := |s.prs.name|, tail + [b];
    assert text[..n + 2] == tail[..n + 2];
    item := Entry(s.prs.name[..n - 1], text[n + 2..]);
    assert s.prs.name == item.key + [0];
    assert text == text[..n + 2] + text[n + 2..];
  }

  lemma StepPendingFinish(s: State, tail: seq<Byte>, at: nat, b: Byte)
    requires s.err == OK && s.prs.sts == FINISH && Pending(s.prs, tail, at)
    ensures tail == []
    ensures b == 0 ==> Step(s, at, b) == s
    ensures b != 0 ==> Step(s, at, b) == State(OK, Parser([b], 0, 0, 0, KEY), s.found)
    ensures b != 0 ==> Pending(Step(s, at, b).prs, [b], at)
    ensures b == 0 ==> Pending(s.prs, [], at + 1)
  {}

  /** One more byte either stays within the pending entry or completes an item. */
  lemma StepPending(s: State, tail: seq<Byte>, at: nat, b: Byte) returns (items: seq<Item>, rest: seq<Byte>)
    requires s.err == OK && Pending(s.prs, tail, at)
    requires Step(s, at + |tail|, b).err == OK
    ensures AllWf(items)
    ensures tail + [b] == PrintAll(items) + rest
    ensures Pending(Step(s, at + |tail|, b).prs, rest, at + |PrintAll(items)|)
    ensures Step(s, at + |tail|, b).found == s.found + FoundIn(items, at)
  {
    hide Step, Pending, PrintAll, FoundIn, Print, FoundItem, AllWf;
    EmptyText(at);
    items, rest := [], tail + [b];
    if s.prs.sts == KEY {
      StepPendingKey(s, tail, at, b);
    } else if s.prs.sts == LENGTH {
      StepPendingLength(s, tail, at, b);
    } else if s.prs.sts == FINISH {
      StepPendingFinish(s, tail, at, b);
      assert tail + [b] == [b];
      if b == 0 {
        PrintOne(Pad, at);
        items, rest := [Pad], [];
      }
    } else {
      var item := StepPendingValue(s, tail, at, b);
      if |tail| + 1 >= |s.prs.name| + 2 + s.prs.lengthData {
        PrintOne(item, at);
        EmptyText(at + |Print(item)|);
        items, rest := [item], [];
      }
    }
  }

  lemma PrintOne(item: Item, at: nat)
    requires item.Wf()
    ensures AllWf([item]) && PrintAll([item]) == Print(item)
    ensures FoundIn([item], at) == FoundItem(item, at)
    ensures item.Pad? ==> Print(item) == [0] && FoundItem(item, at) == []
  {
    assert [item][..0] == [];
    assert PrintAll([item][..0]) == [] && FoundIn([item][..0], at) == [];
  }

  /** Text that parses without error is a list of items followed by the beginning of one more. */
  lemma {:induction false} Explain(pos: nat, data: seq<Byte>) returns (items: seq<Item>, tail: seq<Byte>)
    requires Feed(START, pos, data).err == OK
    ensures AllWf(items) && data == PrintAll(items) + tail
    ensures Pending(Feed(START, pos, data).prs, tail, pos + |PrintAll(items)|)
    ensures Feed(START, pos, data).found == FoundIn(items, pos)
  {
    hide Step, Feed, PrintAll, FoundIn, Pending, AllWf;
    EmptyText(pos);
    FeedLast(START, pos, data);
    if data == [] {
      return [], [];
    }
    var before, b := data[..|data| - 1], data[|data| - 1];
    StepKeepsError(Feed(START, pos, before), pos + |before|, b);
    var done, t := Explain(pos, before);
    var at := pos + |PrintAll(done)|;
    var more, rest := StepPending(Feed(START, pos, before), t, at, b);
    items, tail := done + more, rest;
    AllWfAppend(done, more);
    PrintAllAppend(done, more);
    FoundAppend(done, more, pos);
    assert data == before + [b];
    assert PrintAll(done) + (t + [b]) == data;
  }

  lemma FeedLast(s: State, pos: nat, data: seq<Byte>)
    ensures Feed(s, pos, []) == s
    ensures data != [] ==>
              Feed(s, pos, data) == Step(Feed(s, pos, data[..|data| - 1]), pos + |data| - 1, data[|data| - 1])
  {}

  lemma AllWfAppend(a: seq<Item>, b: seq<Item>)
    ensures AllWf(a + b) <==> AllWf(a) && AllWf(b)
  {
    if AllWf(a + b) {
      assert forall i :: 0 <= i < |a| ==> a[i] == (a + b)[i];
      assert forall i :: 0 <= i < |b| ==> b[i] == (a + b)[|a| + i];
    }
  }

  lemma EmptyText(pos: nat)
    ensures AllWf([]) && PrintAll([]) == [] && FoundIn([], pos) == [] && Pending(IDLE, [], pos)
  {}

  lemma StepKeepsError(s: State, pos: nat, b: Byte)
    ensures s.err != OK ==> Step(s, pos, b).err != OK
  {}

  lemma {:induction false} FoundAppend(a: seq<Item>, b: seq<Item>, pos: nat)
    ensures FoundIn(a + b, pos) == FoundIn(a, pos) + FoundIn(b, pos + |PrintAll(a)|)
    decreases |b|
  {
    hide Print, FoundItem;
    if b == [] {
      assert a + b == a;
    } else {
      assert (a + b)[..|a + b| - 1] == a + b[..|b| - 1];
      FoundAppend(a, b[..|b| - 1], pos);
      PrintAllAppend(a, b[..|b| - 1]);
    }
  }

  ghost predicate Accepted(pos: nat, data: seq<Byte>) {
    var s := Feed(START, pos, data);
    s.err == OK && s.prs.sts == FINISH
  }

  ghost predicate Grammatical(data: seq<Byte>) {
    exists items :: AllWf(items) && PrintAll(items) == data
  }

  /** The parser accepts exactly the grammar. */
  lemma Acceptance(pos: nat, data: seq<Byte>)
    ensures Accepted(pos, data) <==> Grammatical(data)
  {
    hide Feed, PrintAll, FoundIn, Step;
    if Accepted(pos, data) {
      var items, tail := Explain(pos, data);
      assert PrintAll(items) == data;
    }
    if items :| AllWf(items) && PrintAll(items) == data {
      FeedPrint(START, pos, items);
    }
  }

  // ----- What does not parse -----

  /** After some items, a key of 32 bytes without its terminator. */
  ghost predicate HasLongKey(data: seq<Byte>) {
    exists items, key :: AllWf(items) && IsLongKey(data, items, key)
  }

  ghost predicate IsLongKey(data: seq<Byte>, items: seq<Item>, key: seq<Byte>) {
    |key| == 32 && NoNul(key) && PrintAll(items) + key <= data
  }

  /** After some items, a key whose size field is zero. */
  ghost predicate HasZeroSize(data: seq<Byte>) {
    exists items, key :: AllWf(items) && IsZeroSize(data, items, key)
  }

  ghost predicate IsZeroSize(data: seq<Byte>, items: seq<Item>, key: seq<Byte>) {
    1 <= |key| <= 31 && NoNul(key) && PrintAll(items) + (key + [0, 0, 0]) <= data
  }

  lemma {:induction false} FirstError(pos: nat, data: seq<Byte>) returns (k: nat)
    requires Feed(START, pos, data).err != OK
    ensures k < |data| && Feed(START, pos, data[..k]).err == OK
    ensures Step(Feed(START, pos, data[..k]), pos + k, data[k]).err == Feed(START, pos, data).err
  {
    hide Step, Feed;
    FeedLast(START, pos, data);
    var n := |data| - 1;
    if Feed(START, pos, data[..n]).err == OK {
      k := n;
    } else {
      k := FirstError(pos, data[..n]);
      assert data[..n][..k] == data[..k];
      FeedError(START, pos, data[..n], data[n..]);
      assert data[..n] + data[n..] == data;
    }
  }

  lemma ErrorStep(s: State, tail: seq<Byte>, at: nat, b: Byte)
    requires s.err == OK && Pending(s.prs, tail, at) && Step(s, at + |tail|, b).err != OK
    ensures Step(s, at + |tail|, b).err == (if s.prs.sts == KEY then KEY_LONG else LENGTH_DATA_ZERO)
    ensures s.prs.sts == KEY ==> |tail + [b]| == 32 && NoNul(tail + [b])
    ensures s.prs.sts != KEY ==>
              |tail| >= 3 && |tail| <= 33 && NoNul(tail[..|tail| - 2]) && tail + [b] == tail[..|tail| - 2] + [0, 0, 0]
  {
    if s.prs.sts == LENGTH {
      var n := |s.prs.name|;
      assert tail == s.prs.name + [0] && b == 0;
      assert s.prs.name == s.prs.name[..n - 1] + [0];
      assert tail[..|tail| - 2] == s.prs.name[..n - 1];
    }
  }

  lemma FeedLongKey(pos: nat, items: seq<Item>, key: seq<Byte>)
    requires AllWf(items) && |key| == 32 && NoNul(key)
    ensures Feed(START, pos, PrintAll(items) + key).err == KEY_LONG
  {
    hide PrintAll, FoundIn, AllWf;
    FeedPrint(START, pos, items);
    FeedAppend(START, pos, PrintAll(items), key);
    FeedKey(Feed(START, pos, PrintAll(items)), pos + |PrintAll(items)|, key[..31]);
  }

  lemma FeedZeroSize(pos: nat, items: seq<Item>, key: seq<Byte>)
    requires AllWf(items) && 1 <= |key| <= 31 && NoNul(key)
    ensures Feed(START, pos, PrintAll(items) + (key + [0, 0, 0])).err == LENGTH_DATA_ZERO
  {
    hide PrintAll, FoundIn, AllWf;
    var text := key + [0, 0, 0];
    FeedPrint(START, pos, items);
    FeedAppend(START, pos, PrintAll(items), text);
    var s, at := Feed(START, pos, PrintAll(items)), pos + |PrintAll(items)|;
    FeedKey(s, at, key);
    var k1, k2 := key + [0], key + [0, 0];
    assert k1[..|k1| - 1] == key && k2[..|k2| - 1] == k1 && text[..|text| - 1] == k2;
    assert Feed(s, at, k1) == s.(prs := Parser(k1, 0, 0, 0, LENGTH));
    assert Feed(s, at, k2) == s.(prs := Parser(k1, 0, 1, 0, LENGTH));
  }

  lemma ErrorStays(pos: nat, beginning: seq<Byte>, data: seq<Byte>)
    requires beginning <= data && Feed(START, pos, beginning).err != OK
    ensures Feed(START, pos, data).err == Feed(START, pos, beginning).err
  {
    FeedError(START, pos, beginning, data[|beginning|..]);
    assert beginning + data[|beginning|..] == data;
  }

  /** The parser stops with an error exactly at a key that does not end or at a size of zero; a key that is
      empty cannot occur, as its terminator is taken for padding. */
  lemma RefusedText(pos: nat, data: seq<Byte>)
    ensures Feed(START, pos, data).err in {OK, KEY_LONG, LENGTH_DATA_ZERO}
    ensures Feed(START, pos, data).err == KEY_LONG <==> HasLongKey(data)
    ensures Feed(START, pos, data).err == LENGTH_DATA_ZERO <==> HasZeroSize(data)
  {
    hide Feed, Step, PrintAll, FoundIn, Pending, AllWf, NoNul;
    if Feed(START, pos, data).err != OK {
      var k := FirstError(pos, data);
      var items, tail := Explain(pos, data[..k]);
      ErrorStep(Feed(START, pos, data[..k]), tail, pos + |PrintAll(items)|, data[k]);
      assert data[..k] + [data[k]] == data[..k + 1] <= data;
      assert PrintAll(items) + (tail + [data[k]]) <= data;
      assert Feed(START, pos, data[..k]).prs.sts == KEY ==> IsLongKey(data, items, tail + [data[k]]);
      assert Feed(START, pos, data[..k]).prs.sts != KEY ==> IsZeroSize(data, items, tail[..|tail| - 2]);
    }
    if items, key :| AllWf(items) && IsLongKey(data, items, key) {
      FeedLongKey(pos, items, key);
      ErrorStays(pos, PrintAll(items) + key, data);
    }
    if items, key :| AllWf(items) && IsZeroSize(data, items, key) {
      FeedZeroSize(pos, items, key);
      ErrorStays(pos, PrintAll(items) + (key + [0, 0, 0]), data);
    }
  }
}
